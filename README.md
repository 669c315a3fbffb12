# California wildfire dashboard — a verified model of its table logic

The dashboard loads a table of California wildfire incidents (2013-2020),
cleans it once, and then shows four views. This project models the table
logic behind those views and proves what each step promises:

- **Cleaning** (`dfClean`).
  - It drops rows whose coordinates fall outside a box around California.
  - It drops rows that describe fires outside the state: three county values, one canonical URL, and a location mentioning "Nevada".
  - It drops exact duplicate rows, keeping the first copy.
- **Overview map and table** (`MapAndFrame`).
  - The year slider runs from the table's lowest to its highest archive year.
  - The rows shown are those of the chosen county (or of every county) whose year lies within the chosen range.
- **Human cost** (`HumanCost`).
  - The fatality list holds the name, year, fatalities and injuries of the fatal rows, with duplicates dropped.
  - Each listed incident gets one sentence, worded in the singular or plural.
  - There are three headline totals.
  - A deaths-per-year series.
- **Cost of fire** (`FireCost`).
  - Fires per year.
  - Acres burned per year.
  - The seven counties with the most incidents.

Modules:

- `Rows` is generic table algebra: row masks (`Filter`), dropping duplicates while keeping the first copy (`Dedup`), column projection, column sums, and sums per key. It also has the order-preserving subsequence relation `SubseqOf`.
- `Text` covers the substring test behind `str.contains`, and the decimal text that an f-string writes for an integer, with its parse-back.
- `Incidents` defines the incident record. It also has an `otherColumns` field, because duplicate detection compares every column of the file, not only the modelled ones.
- `Cleaner` models the cleaning step as three loop methods, one per drop. Each is proved equal to a specification function, and the promised properties are proved about the composed function `Cleaned`.
- `MapView`, `HumanCost`, `PerYear` and `CountyRanking` model the views. They take the cleaned table as an immutable sequence and return new values.

The cleaning code changes the table it is given in place (`inplace=True`, FinalProject.py:9-23). Its only caller immediately rebinds the name to the result (FinalProject.py:152). So each step is modelled as a method that returns the surviving rows.

In "all counties" mode, the county selection is the `Counties` column itself, so line 64 compares that column with itself (FinalProject.py:51, 64). The model writes that mask as `r.county == r.county`, and `AllCountiesKeepsEveryCounty` proves that it removes nothing.

## Model

| member | source | states |
|---|---|---|
| Cleaner.DropBadLocations | FinalProject.py:12-13 | the loop keeps exactly the rows with 30 <= lat <= 44 and lon <= -115, in their order (equal to `Filter(InBox, rows)`) |
| Cleaner.DropOutOfState | FinalProject.py:16-20 | the loop keeps exactly the rows whose county is not Nevada, State of Oregon or Mexico, whose URL is not the tram-fire URL and whose location does not contain "Nevada" |
| Cleaner.DropDuplicates | FinalProject.py:23 | the loop keeps each row unless an equal row came before it (equal to `Dedup(rows)`) |
| Cleaner.Clean | FinalProject.py:7-24 | the three steps in order produce `Cleaned(raw)`. Every row is in the box and in the state, and no two rows are equal. The result is an order-preserving subsequence of the input. A row survives exactly when it is in the input and passes both masks |
| Cleaner.CleanedCanonical | FinalProject.py:12-20 | every cleaned row has 30 <= lat <= 44 and lon <= -115, a county outside the excluded list, a URL other than the tram-fire URL, and "Nevada" occurring at no index of its location |
| Cleaner.CleanedDistinct | FinalProject.py:23 | no two cleaned rows are equal |
| Cleaner.CleanedSubseq | FinalProject.py:7-24 | cleaning only removes rows: the result is an order-preserving subsequence of the input |
| Cleaner.CleanedMembers | FinalProject.py:12-23 | a row is in the cleaned table iff it is in the input and passes both masks; duplicate removal loses no distinct row |
| Cleaner.CleanedKeepsFirst | FinalProject.py:23 | the first copy of a row that passes both masks is kept, at the position right after the rows kept from the input before it |
| Cleaner.CleanedPrefix | FinalProject.py:7-24 | cleaning a prefix of the input gives a prefix of the cleaned table |
| Cleaner.CleanedIdempotent | FinalProject.py:7-24 | cleaning the cleaned table removes nothing |
| Cleaner.CleanedOrderIrrelevant | FinalProject.py:12-23 | dropping duplicates first, and applying the two masks in the other order, gives the same table |
| Cleaner.BadLatitudeRemoved | FinalProject.py:12-13 | a row with latitude above 44 or below 30 is never in the cleaned table |
| Text.ContainsIff | FinalProject.py:19 | the substring test holds iff the pattern occurs at some index of the text |
| Text.IntTextRoundTrip | FinalProject.py:95 | the decimal text of an integer is well formed and reads back as that integer |
| MapView.YearRange | FinalProject.py:44-46 | the slider ends are `None` iff the table is empty. Otherwise they bound every row's year, and both are attained by some row |
| MapView.MapView | FinalProject.py:60-67 | the i-th displayed row holds the year, county, name, major flag, acres, location, lat and lon of the i-th selected row. So each displayed row has lo <= year <= hi and, when one county is chosen, that county |
| MapView.SelectRowsMembers | FinalProject.py:64-67 | a row is shown iff it is in the table, matches the county choice and has lo <= year <= hi |
| MapView.SelectRowsSubseq | FinalProject.py:64-67 | the selection is an order-preserving subsequence of the table |
| MapView.EmptyRangeShowsNothing | FinalProject.py:66-67 | a year range with lo > hi selects no row |
| MapView.AllCountiesKeepsEveryCounty | FinalProject.py:50-64 | in all-counties mode the county mask removes no row; only the year range selects |
| MapView.DefaultViewShowsAll | FinalProject.py:44-67 | with all counties and the slider at its initial ends, every row of the table is shown, in order |
| HumanCost.FatalitySubsetSpec | FinalProject.py:83-85 | every listed row has fatalities > 0, no two listed rows are equal, and the list keeps table order |
| HumanCost.FatalitySubsetKeepsFirst | FinalProject.py:83-85 | the first fatal row with given kept columns is listed, right after the rows listed from the table before it; the list built from a prefix of the table is a prefix of the full list. So the sentences follow first-copy order |
| HumanCost.FatalitySubsetMembers | FinalProject.py:83-85 | a row is listed iff it is the name, year, fatalities and injuries of some table row with fatalities > 0 |
| HumanCost.NarrativeWording | FinalProject.py:93-98 | the sentence ends "person lost their life." iff fatalities == 1, and "people lost their lives." iff fatalities != 1 |
| HumanCost.NarrativeNumbers | FinalProject.py:93-98 | the sentence holds the name and two decimal texts that read back as the year and the death toll |
| HumanCost.Narratives | FinalProject.py:92-98 | one sentence per listed row, in list order, each the sentence for that row |
| HumanCost.TotalFatalities | FinalProject.py:103 | the fatality total (the Fatalities column summed over the fatality list) is at least the number of listed incidents |
| HumanCost.WholeTableTotalsCountEveryRow | FinalProject.py:101-105 | adding any row, copies included, adds its injuries and its personnel to those two totals |
| HumanCost.FatalityTotalCountsOnce | FinalProject.py:83-103 | adding a row adds its fatalities to the fatality total only when it has some and no listed row equals its four kept columns |
| HumanCost.FatalityTotalAtMostColumn | FinalProject.py:83-103 | with no negative counts, the fatality total never exceeds the whole-table Fatalities sum |
| HumanCost.FatalityTotalIsColumnWithoutCopies | FinalProject.py:83-103 | with no negative counts and no two equal fatal rows, the fatality total equals the whole-table Fatalities sum |
| PerYear.YearsSpec | FinalProject.py:109 | the group keys are strictly ascending, and a year is a key iff some row has it |
| PerYear.PerYearAscending | FinalProject.py:109 | a per-year series lists its years in strictly ascending order, each once |
| PerYear.PerYearYearsOccur | FinalProject.py:109 | every year of a per-year series is the year of some row |
| PerYear.PerYearCoversYears | FinalProject.py:109 | every year of the table has an entry in a per-year series |
| PerYear.PerYearAddsUp | FinalProject.py:109 | the per-year sums of a column add up to that column's sum over the table |
| PerYear.DeathsPerYearAddUp | FinalProject.py:109-110 | deaths per year add up to the Fatalities column. With no negative counts, that sum is at least the headline fatality total |
| PerYear.AcresPerYearAddUp | FinalProject.py:141 | acres burned per year add up to the AcresBurned column |
| PerYear.FiresPerYearEntry | FinalProject.py:122 | each year's fire count is the number of rows of that year, and at least one |
| PerYear.FiresPerYearAddUp | FinalProject.py:122 | the fire counts add up to the number of rows |
| CountyRanking.SortByCountSpec | FinalProject.py:147 | sorting by count gives non-increasing counts and the same multiset of entries |
| CountyRanking.SortByCountDistinct | FinalProject.py:147 | sorting keeps distinct entries distinct |
| CountyRanking.TallySpec | FinalProject.py:147 | the tally has no two equal entries; an entry is in it iff its county occurs in the table and its count is that county's number of rows |
| CountyRanking.CountyCountPositive | FinalProject.py:147 | a county occurring in the table has a count of at least one |
| CountyRanking.ValueCountsSpec | FinalProject.py:147 | the full ranking has non-increasing counts and distinct counties. An entry is in it iff its county occurs in the table and its count is that county's number of rows |
| CountyRanking.ValueCountsAddUp | FinalProject.py:147 | the counts of the full ranking add up to the number of rows |
| CountyRanking.TopCountiesSpec | FinalProject.py:147 | the first n entries: at most n of them, all entries when there are fewer, non-increasing counts, distinct counties, each count that county's row count (at least one). No county left out has a larger count than one shown |
| CountyRanking.TopSevenCountiesSpec | FinalProject.py:147 | the shown list has at most 7 entries with non-increasing counts, each that county's row count and at least one |

## Left out

- Rendering: the page layout, headings, texts, image, sidebar, slider, checkbox, select box, map and data-frame widgets (FinalProject.py:27-36, 40-57, 70, 78, 87-106, 154-167) are calls into the dashboard framework.
- Plotting: the scatter plot, bar chart and box plot (FinalProject.py:111-114, 121-132) are calls into plotting libraries. The box plot's per-year distribution of acres is computed by that library and is not modelled.
- Reading the CSV file (FinalProject.py:151) is I/O. The model starts from a sequence of records.
- The column renames (FinalProject.py:9, 74-76) only change the schema. The record fields carry the final names.
- The display projection at FinalProject.py:72, which drops lat and lon before the table is drawn, only chooses which columns the widget shows.
- The sorted, distinct county list of the select box (FinalProject.py:55-56) only fills the widget's options.
- Missing values are not modelled; every field is assumed present. Under pandas' NaN rules, a row with a missing coordinate or location survives the masks at lines 12 and 19. A row with a missing county fails the equality at line 64 even in all-counties mode.
- Missing columns: the record type has every column, so the KeyError pandas raises for a missing column has no counterpart.
- Floating point: latitude and longitude are `real` and are only compared. Acres burned is an `int`, so fractional acres are not modelled.
- CountyRanking.ValueCounts: the order of counties with equal counts is left to pandas and is not stated. The model uses a stable sort over counties in order of first appearance, but no contract promises that order.
- HumanCost.Narratives: it takes the fatality list, as the loop over `df2` does. The per-row `st.write` output is the returned sequence of sentences.
- HumanCost.TotalInjuries and HumanCost.TotalPersonnel are plain column sums with no contract of their own. Their behaviour is stated by `WholeTableTotalsCountEveryRow`, which holds for every table.
