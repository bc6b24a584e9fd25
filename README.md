# CO2 emissions scraper: a Dafny model of its data path

The program scrapes the Wikipedia table of countries by fossil CO2 emissions,
keeps per country the "% of world" share, stores the pairs in a fresh SQLite
table under consecutive IDs, reads them back into a dictionary, selects the
ten largest shares and splits them into pie-chart labels and sizes.

This project models that data path, with the I/O and the foreign libraries
cut away:

- `text.dfy` (module `Text`): Python's `str.strip()` and the slice `s[:-1]`,
  the two string operations applied to a cell's text.
- `pydict.dfy` (module `PyDict`): a Python `dict` as an insertion-ordered
  key list plus a map. Assigning to an existing key replaces its value and
  keeps its first-insertion position. Also the fold `for k, v in pairs: d[k] = v`
  and the round trip `items()` then rebuild.
- `scraper.dfy` (module `Scraper`): `BeautifulSoupScraper` as the class
  `SoupScraper`, whose field `soupDict` is updated in place by `ReadFile`.
  The parsed table arrives as a sequence of rows, each a sequence of cell
  texts. Rows 0-4 are skipped, and only rows of exactly eight cells count.
  Country = stripped cell 0; share = stripped cell 4 without its last character.
- `store.dfy` (module `Store`): `SQLite_database` as the class `Database`,
  whose table is the sequence of inserted (ID, country, share) rows. An
  insert whose ID is already taken is refused, as the primary key makes
  SQLite do. `ReadData4MatPlotLib` folds the selected records into a dictionary.
- `ranking.dfy` (module `Ranking`): `sorted(items, key=lambda x: x[1], reverse=True)[:10]`
  as a stable insertion sort into non-increasing order, truncated to ten.
  Any stable descending sort gives the same result (`SortDescUnique`), so
  this stands for Python's Timsort.
- `graph.dfy` (module `Graph`): `MatPlotLib_Graph.__init__` unzipping the
  pairs into `labels` and `sizes`, and the `explode` tuple of `PieChart`.
- `pipeline.dfy` (module `Pipeline`): the ID/insert loop of `main`, the
  proof that the fresh table accepts every insert and gives the dictionary
  back unchanged, and `main` itself as `RunPipeline`.

Values are compared through a parameter `rank: V -> int`. It stands for the
order of the values read back from the table. No floating point is modelled.

Cell 4 holds a share written with a trailing `%`. The code removes the last
character whatever it is (`[:-1]`), and an empty cell stays empty; `Entry`
and `Text.DropLast` model that.

## Model

| member | source | states |
|---|---|---|
| Text.LStripShape | webScrap_CO2emissions.py:48 | removing the leading whitespace keeps a suffix that does not start with whitespace, and what it cuts off is all whitespace |
| Text.RStripShape | webScrap_CO2emissions.py:48 | removing the trailing whitespace keeps a prefix that does not end with whitespace, and what it cuts off is all whitespace |
| Text.StripShape | webScrap_CO2emissions.py:48 | `x.text.strip()` is the slice of the text left after removing the whitespace at both ends: what is removed is all whitespace (Python's `str.isspace` set), and what remains neither starts nor ends with whitespace |
| Text.StripIdempotent | webScrap_CO2emissions.py:48 | stripping an already stripped cell changes nothing |
| Text.DropLast | webScrap_CO2emissions.py:49 | `[:-1]` removes the last character, whatever it is; the empty string stays empty |
| PyDict.Empty | webScrap_CO2emissions.py:38 | `{ }` has no keys and no values |
| PyDict.Put | webScrap_CO2emissions.py:49 | `d[k] = v` sets the value of `k`; keys already present keep their position, and a new key is appended; the dictionary stays well formed |
| PyDict.Items | webScrap_CO2emissions.py:139 | `items()` lists each key with its value, in insertion order |
| PyDict.PutAll | webScrap_CO2emissions.py:99-100 | filling a dictionary pair by pair keeps it well formed and keeps the earlier keys as a prefix of the key order |
| PyDict.PutAllPrefixOrder | webScrap_CO2emissions.py:99-100 | the key order after the first n pairs is a prefix of the key order after all of them |
| PyDict.NewKeyOrder | webScrap_CO2emissions.py:99-100 | keys iterate in the order of their first pair: a key that was present or that one of the first n pairs carries comes before a key that only a later pair brings |
| PyDict.PutAllKeys | webScrap_CO2emissions.py:99-100 | after the loop, a key is present exactly when it was before or some pair carries it |
| PyDict.LastWriteWins | webScrap_CO2emissions.py:99-100 | a key holds the value of the last pair that carries it |
| PyDict.UntouchedKey | webScrap_CO2emissions.py:45-50 | a key that no pair carries keeps its earlier value |
| PyDict.RoundTrip | webScrap_CO2emissions.py:139-148 | rebuilding a dictionary from its `items()` in order gives back the same dictionary, key order included |
| Scraper.DataRows | webScrap_CO2emissions.py:45 | `rows[5:]` is row i+5 at position i, and is empty for a table of at most five rows |
| Scraper.Entry | webScrap_CO2emissions.py:48-49 | an eight-cell row yields (stripped cell 0, stripped cell 4 without its last character) |
| Scraper.EntryHasRow | webScrap_CO2emissions.py:46-49 | every entry produced comes from a row with exactly eight cells |
| Scraper.RowHasEntry | webScrap_CO2emissions.py:46-49 | every row with exactly eight cells contributes its entry |
| Scraper.EntryIffQualifyingRow | webScrap_CO2emissions.py:46-49 | an entry is produced if and only if some row has exactly eight cells and yields it |
| Scraper.MalformedRowSkipped | webScrap_CO2emissions.py:46-47 | a row with any cell count other than eight can be removed from anywhere without changing the entries |
| Scraper.HeaderRowsIgnored | webScrap_CO2emissions.py:45 | two tables that agree from row 5 on give the same dictionary: rows 0-4 never contribute |
| Scraper.LastRowWins | webScrap_CO2emissions.py:45-49 | among the data rows, a country gets the share of the last eight-cell row that names it |
| Scraper.UnnamedCountryKept | webScrap_CO2emissions.py:38-50 | a country that no eight-cell row names keeps the share the dictionary already held |
| Scraper.ExtractKeys | webScrap_CO2emissions.py:38-50 | after `ReadFile`, a country is a key exactly when it was one before or some eight-cell row at index 5 or later names it |
| Scraper.ExtractLastRowWins | webScrap_CO2emissions.py:45-50 | after `ReadFile`, a country holds the share of the last eight-cell row (index 5 or later) naming it |
| Scraper.ExtractKeepsEarlier | webScrap_CO2emissions.py:38-50 | entries left by an earlier `ReadFile` on the same object survive unless a row overwrites them |
| Scraper.EntriesPrefix | webScrap_CO2emissions.py:45-49 | the entries of the first k rows are a prefix of the entries of all rows |
| Scraper.EarlierRowEntry | webScrap_CO2emissions.py:45-49 | the entry of an eight-cell row among the first n rows is among the entries those rows produce |
| Scraper.UnnamedBefore | webScrap_CO2emissions.py:45-49 | no entry of the first n rows names a country that no eight-cell row among them names |
| Scraper.RowEntryAt | webScrap_CO2emissions.py:45-49 | an eight-cell row's entry comes right after the entries of the rows before it |
| Scraper.FirstRowOrder | webScrap_CO2emissions.py:45-49 | countries iterate in the order of their first eight-cell row: an earlier row's country comes before a country that no earlier row names |
| Scraper.ExtractFirstRowOrder | webScrap_CO2emissions.py:45-50 | after `ReadFile`, countries iterate in the order of their first eight-cell data row, the order in which `main` numbers them (lines 139-145) and the sort meets ties (line 155) |
| Scraper.ReadRowStep | webScrap_CO2emissions.py:45-49 | one turn of the loop assigns the row's entry into the dictionary when the row has eight cells, and changes nothing otherwise |
| Scraper.SoupScraper.constructor | webScrap_CO2emissions.py:37-38 | a new scraper starts with an empty, well-formed dictionary |
| Scraper.SoupScraper.ReadFile | webScrap_CO2emissions.py:39-50 | the loop leaves `soupDict` equal to the old dictionary updated with every qualifying row's entry in row order, and returns that same dictionary |
| Store.Select | webScrap_CO2emissions.py:148 | `SELECT Country, CO2World2017` yields one (country, share) record per row, in the rows' order |
| Store.Database.constructor | webScrap_CO2emissions.py:54-57 | a new store's table is empty |
| Store.Database.Insert | webScrap_CO2emissions.py:85-92 | the insert succeeds and appends the row exactly when its ID is not yet used; a refused insert changes nothing |
| Store.Database.ReadData4MatPlotLib | webScrap_CO2emissions.py:94-101 | the loop leaves a well-formed dictionary equal to the selected records assigned one by one, in order, into an empty one |
| Store.ReadBackKeys | webScrap_CO2emissions.py:94-101 | the dictionary read back has as keys exactly the countries of the table's rows |
| Store.ReadBackLastRow | webScrap_CO2emissions.py:94-101 | in the dictionary read back, each country maps to the share of the last row carrying it |
| Ranking.InsertDesc | webScrap_CO2emissions.py:155 | one insertion step of the sort adds exactly one entry, as multisets |
| Ranking.InsertDescSorted | webScrap_CO2emissions.py:155 | inserting into a non-increasing sequence keeps it non-increasing |
| Ranking.InsertDescPerRank | webScrap_CO2emissions.py:155 | the inserted entry goes before every entry of equal value |
| Ranking.SortDesc | webScrap_CO2emissions.py:155 | the sort returns a permutation of its input |
| Ranking.SortDescSorted | webScrap_CO2emissions.py:155 | the sorted sequence is non-increasing by value |
| Ranking.SortDescStable | webScrap_CO2emissions.py:155 | entries of equal value keep their input order (`reverse=True` keeps stability) |
| Ranking.SortDescDistinct | webScrap_CO2emissions.py:155 | sorting a dictionary's items keeps their keys distinct |
| Ranking.SortedStableUnique | webScrap_CO2emissions.py:155 | two non-increasing sequences that list every value's entries in the same order are equal |
| Ranking.SortDescUnique | webScrap_CO2emissions.py:155 | every stable sort into non-increasing order of the input equals `SortDesc` |
| Ranking.SortedInputUnchanged | webScrap_CO2emissions.py:155 | an input that is already non-increasing is returned unchanged, ties included |
| Ranking.TopTen | webScrap_CO2emissions.py:155 | the selection has min(10, n) entries |
| Ranking.TopTenSorted | webScrap_CO2emissions.py:155 | the selection is non-increasing by value and takes its entries from the input (as a sub-multiset) |
| Ranking.TopTenStable | webScrap_CO2emissions.py:155 | for every value, the selected entries with it are a prefix of the input's entries with it, in input order |
| Ranking.TopTenLeftOutNoHigher | webScrap_CO2emissions.py:155 | no entry left out has a greater value than any entry kept |
| Ranking.TopTenDistinct | webScrap_CO2emissions.py:155 | selected from a dictionary's items, the entries have distinct keys and each is one of the items |
| Ranking.TopTenExample | webScrap_CO2emissions.py:155 | for the eleven shares 40 ... 0.2, the selection drops "K" and keeps A..J in descending order |
| Graph.MatPlotLibGraph.constructor | webScrap_CO2emissions.py:20-25 | `labels` and `sizes` have the length of the input, and position i holds the first and second component of pair i |
| Pipeline.Numbered | webScrap_CO2emissions.py:138-145 | the i-th dictionary entry (from 0) is inserted under ID i + 1 with its country and share |
| Pipeline.NumberedIdsDistinct | webScrap_CO2emissions.py:138-145 | the IDs the loop assigns are pairwise distinct |
| Pipeline.NumberedIdsBelow | webScrap_CO2emissions.py:138-145 | before the n-th insert, every ID already used is at most n, so ID n + 1 is free |
| Pipeline.FreshTableAcceptsAll | webScrap_CO2emissions.py:133-145 | on the freshly created table every insert of the loop succeeds, so the table holds exactly one row per entry |
| Pipeline.SelectNumbered | webScrap_CO2emissions.py:143-148 | the records read back from those rows are the dictionary's items, in order |
| Pipeline.InsertEntries | webScrap_CO2emissions.py:138-145 | the loop issues one insert per dictionary entry, in iteration order, with IDs 1, 2, ..., n |
| Pipeline.StoreRoundTrip | webScrap_CO2emissions.py:138-148 | storing the scraped dictionary and reading it back gives the same dictionary |
| Pipeline.RunPipeline | webScrap_CO2emissions.py:125-159 | the chart's labels and sizes are the ten largest shares of the scraped dictionary, unzipped; `explode` has one offset per slice exactly when at least ten countries were scraped |

`Text.Strip`, `Scraper.Extract` (the dictionary `ReadFile` leaves) and
`Store.InsertRow` (one `INSERT` with the primary-key refusal) carry no
contract of their own; the rows of `Text.LStripShape`, `Text.RStripShape`,
`Text.StripShape`, the `Scraper.Extract*` lemmas and `Store.Database.Insert`
characterize them.

## Left out

- The page fetch with `urlopen` (line 40) is network I/O. The table is a parameter.
- BeautifulSoup parsing, `find`, `findAll` and `.text` (lines 41-46) are a foreign library. The model takes their output: each `<tr>` as the texts of its `<td>` cells.
- The SQLite engine is a foreign library: `Connect`, `Table`, `Close`, SQL parsing and execution, and the database file (lines 54-92, 106-117). Only the table's rows and the primary-key check on insert are modelled. The constructor stands for opening the file and creating the table.
- Store.Select: SQLite does not promise an order for a `SELECT` without `ORDER BY`. The model returns rows in insertion order. For this program that is also ascending-ID order, because the IDs are inserted increasing.
- The `except sqlite3.Error` paths, their `print`, and the boolean results no caller checks. The primary-key refusal is the only database error these inserts can meet, and `Insert` models it. `ReadData4MatPlotLib` returning `None` after a failed read is not modelled, because the model has no failing read.
- The FLOAT column affinity is floating-point behaviour inside SQLite. It would turn the stored share texts into reals. Python's comparison of those values is modelled only as the abstract `rank` order.
- RunPipeline: compares the shares through the parameter `rank`, not through SQLite's conversion of the text to a real. A mix of reals and texts that Python could not compare is not modelled.
- `DeleteDatabase` (lines 120-122) removes a file, which is filesystem I/O.
- `PieChart` rendering (lines 26-34) is plotting. The only fact kept is the ten-entry `explode` tuple (`Graph.Explode`). `RunPipeline` relates its length to the number of slices.
- All `print` logging.
- Text.Strip: uses the whitespace set of Python's `str.isspace` as a fixed list of code points. It does not follow changes between Unicode versions.
- Store.Database.constructor: assumes no database file exists yet. If an earlier run stopped before `DeleteDatabase` (line 152), `sqlite3.connect` (line 56) opens the old file and `CREATE TABLE` (lines 133-136) fails; `Pipeline.StoreRoundTrip` then does not describe the program.
- Store.Select: the declared type `STRING` gives the Country column NUMERIC affinity in SQLite, so a country text that looks like a number would come back as a number. The model returns every country as the text that was stored.
