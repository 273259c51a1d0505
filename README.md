# Traffic volume ETL, modelled in Dafny

This project models the traffic-volume part of `src/etl_pipeline.py`:

- **Site selection.** `map_suburb_2_site` picks the sites of ten inner-Melbourne suburbs from the site table. Suburb names are first stripped of their `(Vic.)` tag.
- **Daily cleaning.** `process_csv_file` turns one daily table of quarter-hour counts into hourly long-format rows. It keeps the selected sites, drops rows without a positive reading, fills missing readings and zeroes negative ones, and charges each negative reading to the working period count. It then sums quarter hours into 24 hours and melts hour by hour.
- **The archive walk.** `process_zip_file` walks a yearly archive of inner archives of CSV files in sorted name order and concatenates the results.
- **The run.** `main` walks the yearly archives in sorted order and names each output file after the year in the archive's name.

Modules, one file each:

| file | module | models |
|---|---|---|
| `common.dfy` | `Common` | `Option`/`Result`, named entries and lookup by name, sums, concatenation of a list of tables |
| `text.dfy` | `Text` | Python's `str` order and `sorted`, `str.endswith`, `\s`, `str(n)` |
| `sites.dfy` | `Sites` | `map_suburb_2_site`, the `(Vic.)` suffix strip |
| `cleaning.dfy` | `Cleaning` | `process_csv_file`, as functions on row sequences |
| `archive.dfy` | `Archive` | `process_zip_file`: specification functions `ProcessZip` and `Walk`, and the loop methods proved equal to them |
| `driver.dfy` | `Driver` | `main`: stem, year and output name, and the loop over the yearly archives |

How the pieces are represented:

- **Tables.** A table is a sequence of rows.
- **Archives.** An archive is a sequence of named entries whose contents are given. A yearly file that `zipfile.ZipFile` cannot open is `NotZipArchive`. An inner archive that cannot be opened is `NotZip`. A CSV entry that cannot be parsed is `Unreadable`.
- **Errors.** A raised exception is the `Failure` case of a `Result`.
- **The two loops.** The loops of `process_zip_file` and `main` are `method`s with loop invariants. Each is proved equal to a function of its inputs (`ProcessZip`, `RunSpec`). The properties are proved as lemmas about those functions.
- **Row-wise pandas steps.** Filters, `fillna`, `mask`, the hourly sums and `melt` have no loop in the source, so they are modelled as functions.

Behaviours of the code that the model keeps:

- `pd.concat([])` raises when an archive holds no `.csv` entry at all; it does not return an empty table. An archive whose CSVs keep no rows still gives an empty table.
- `main` has no exception handling, so the first failing year stops the run. The files of earlier years remain.
- The selected sites are a Series, so order and duplicates are kept; they are not a deduplicated set.
- The hour labels are the strings `"1"` to `"24"`, not numbers.

## Model

| member | source | states |
|---|---|---|
| Sites.SelectSites | src/etl_pipeline.py:62-74 | a site id is selected iff some row of the table has a suburb in the fixed list and that id; never more ids than rows |
| Sites.SelectSitesAppend | src/etl_pipeline.py:70 | selection works row by row: table order and repeated ids are kept (a Series, not a set) |
| Sites.StripBefore | src/etl_pipeline.py:41 | cutting `s` at a position and dropping the whitespace run before it leaves a prefix of `s` that ends in no whitespace, followed in `s` by whitespace only |
| Sites.StripVicSuffix | src/etl_pipeline.py:41 | a name ending in `(Vic.)` loses that tag and the whitespace run before it: the result is at most the name minus the tag, a prefix of it, ending in no whitespace, with only whitespace between it and the tag; a name ending in `(Vic.)` plus a newline is treated the same and keeps the final newline; any other name is unchanged |
| Sites.StripVicSuffixOfTagged | src/etl_pipeline.py:41 | `name + whitespace + "(Vic.)"` becomes exactly `name` |
| Sites.StripVicSuffixOfTaggedLine | src/etl_pipeline.py:41 | `name + whitespace + "(Vic.)\n"` becomes exactly `name + "\n"` |
| Text.LexLe | src/etl_pipeline.py:132 | Python's string order puts a string before every extension of it and after every proper prefix of it |
| Text.Sort | src/etl_pipeline.py:132 | `sorted` returns a permutation of the names: the same multiset |
| Text.SortSorted | src/etl_pipeline.py:132 | `sorted` yields a list ordered by Python's string order (a permutation, by the contract of `Sort`) |
| Text.SortMembers | src/etl_pipeline.py:138 | sorting keeps exactly the same names, as many as there were |
| Text.LexLeTotal | src/etl_pipeline.py:132 | Python's string order is total |
| Text.LexLeTrans | src/etl_pipeline.py:132 | Python's string order is transitive |
| Text.LexLeAntisymmetric | src/etl_pipeline.py:132 | two strings ordered both ways are equal |
| Text.EndsWithConcat | src/etl_pipeline.py:139 | `s.endswith(suffix)` holds exactly when `s` is some string followed by `suffix` |
| Text.DecimalStringRoundTrip | src/etl_pipeline.py:114 | `int(str(n)) == n` for the hour labels `f"{h+1}"` |
| Text.DecimalStringInjective | src/etl_pipeline.py:114 | distinct hours get distinct labels |
| Cleaning.AtSelectedSites | src/etl_pipeline.py:95 | a row is kept iff it is a row of the table whose site is selected |
| Cleaning.WithSignal | src/etl_pipeline.py:97-100 | a row is kept iff one of its present readings is strictly positive |
| Cleaning.Survivors | src/etl_pipeline.py:94-100 | a row survives iff its site is selected and it has a positive reading |
| Cleaning.SurvivorsAppend | src/etl_pipeline.py:94-100 | both filters work row by row and keep table order |
| Cleaning.CountNegativeOfFill | src/etl_pipeline.py:103-106 | after `fillna(0)` the negative cells are exactly the present negative readings |
| Cleaning.Clean | src/etl_pipeline.py:102-107 | cleaning keeps date, site and detector, makes every reading non-negative, keeps non-negative readings, and lowers the working period count by exactly the number of negative readings, unclamped |
| Cleaning.RawNegativesAppend | src/etl_pipeline.py:105-106 | the negative count of a row is the sum over any split of its readings |
| Cleaning.CleanExample | src/etl_pipeline.py:102-107 | readings 5, -3, 0, 2, 0… clean to 5, 0, 0, 2, 0… with the count lowered by one |
| Cleaning.HourlyTotals | src/etl_pipeline.py:113-116 | a row's hourly aggregation has exactly 24 columns, one per hour label |
| Cleaning.HourTotalOfQuarters | src/etl_pipeline.py:114 | with 96 quarter columns, hour `h` is the sum of quarters `4h..4h+3` |
| Cleaning.HourlyTotalsPreserveSum | src/etl_pipeline.py:113-116 | the 24 hourly totals add up to the first 96 quarter-hour cells, cut back Python-slice style when fewer |
| Cleaning.HourlyTotalsNonNegative | src/etl_pipeline.py:114 | hours of non-negative quarters are non-negative |
| Cleaning.Melt | src/etl_pipeline.py:119-122 | melting `n` rows over 24 hour columns gives `24 n` rows |
| Cleaning.MeltAt | src/etl_pipeline.py:119-122 | `melt` is hour-major: row `h n + k` is hour `h` of row `k` |
| Cleaning.MeltMember | src/etl_pipeline.py:119-122 | every melted row is some hour of some input row |
| Cleaning.ProcessCsv | src/etl_pipeline.py:76-124 | `process_csv_file` yields 24 output rows per surviving row |
| Cleaning.ProcessCsvAt | src/etl_pipeline.py:76-124 | output row `h n + k` has label `str(h+1)`, the date, site and detector of surviving row `k`, the sum of its cleaned quarters `4h..4h+3`, and its corrected working period count |
| Cleaning.ProcessCsvRows | src/etl_pipeline.py:94-124 | every output row has a selected site, a non-negative volume and a label in `"1".."24"`, and comes from an input row with a positive reading |
| Cleaning.ProcessCsvOneRow | src/etl_pipeline.py:94-100 | a single row yields 24 rows iff its site is selected and it has a positive reading, otherwise none |
| Cleaning.ProcessCsvRowTotal | src/etl_pipeline.py:102-122 | the 24 output volumes of a row add up to its cleaned day total |
| Cleaning.ExampleHourTotals | src/etl_pipeline.py:114 | hourly totals of the sample readings: 7, then zeros |
| Cleaning.ProcessCsvExample | src/etl_pipeline.py:76-124 | the sample row at a selected site yields 24 rows: hour "1" with volume 7, the others 0, all with the count lowered by one |
| Common.Lookup | src/etl_pipeline.py:133-140 | opening a listed name reads the entry of that name stored last, as `zipfile` does for the outer and the inner archives; no later entry has that name |
| Archive.CsvNames | src/etl_pipeline.py:139 | a name is processed iff it is listed and ends with `.csv` |
| Archive.ReadSpec | src/etl_pipeline.py:131-145 | reading succeeds iff no visit fails, then it yields one table per visit in visit order; otherwise it fails with the first failing visit's error |
| Archive.ReadAppend | src/etl_pipeline.py:131-145 | reading two runs of visits is reading the first, then the second, stopping at the first error |
| Archive.Walk | src/etl_pipeline.py:129-148 | walking an opened yearly archive never raises the error of a yearly file that is not a zip archive |
| Archive.ProcessZip | src/etl_pipeline.py:126-148 | `process_zip_file` raises at once, with the file's path, exactly when the yearly file is not a zip archive; otherwise it is the walk of its entries |
| Archive.DfsSuccess | src/etl_pipeline.py:129-145 | the list `dfs` is built exactly when no visit raises, and then holds the table of each visit, in visit order |
| Archive.WalkSuccess | src/etl_pipeline.py:126-148 | the walk succeeds iff something is visited and no visit fails; then the result is the concatenation of `process_csv_file` over the visited tables, in visit order |
| Archive.WalkFailure | src/etl_pipeline.py:148 | the walk fails with "no objects to concatenate" iff nothing is visited; any other failure is that of the first failing visit |
| Archive.WalkRows | src/etl_pipeline.py:126-148 | every row of a yearly table has a selected site, a non-negative volume and an hour label |
| Archive.CsvNamesSorted | src/etl_pipeline.py:138-139 | filtering an ordered name list keeps it ordered |
| Archive.ChildVisitsOrder | src/etl_pipeline.py:137-142 | within an inner archive the walk opens exactly its `.csv` names, in sorted order, each reading the last entry of that name |
| Archive.VisitsFromOuter | src/etl_pipeline.py:132-133 | every visit made for a list of outer names carries one of those names |
| Archive.VisitsFromOrder | src/etl_pipeline.py:132-142 | visits for an ordered list of outer names come in that order |
| Archive.VisitsOuterOrder | src/etl_pipeline.py:132-140 | the walk goes through the outer entries in sorted name order, each one a name of the archive; and it misses nothing: every outer entry that is not a zip archive is visited, and so is every `.csv` name of every inner archive, with the last entry of that name |
| Archive.ProcessZipFile | src/etl_pipeline.py:126-148 | the method returns exactly `ProcessZip`: the error for a yearly file that is not a zip archive, otherwise what the nested loops compute, which is `Walk` of its entries |
| Archive.ProcessChildZip | src/etl_pipeline.py:137-145 | the inner loop extends `dfs` by the tables of the inner archive's CSV visits, or stops at the first failure |
| Archive.ProcessCsvEntries | src/etl_pipeline.py:138-145 | for the names in the order given, each `.csv` entry's table is appended to `dfs`; the first unreadable one raises |
| Driver.LastIndexOf | src/etl_pipeline.py:157 | `rfind`: the last position of the character, or none when absent |
| Driver.Stem | src/etl_pipeline.py:157 | `Path.stem` is a prefix of the name |
| Driver.Year | src/etl_pipeline.py:157 | `stem[-4:]` is the last `min(len, 4)` characters of the stem |
| Driver.StemOfZip | src/etl_pipeline.py:157 | the stem of `base.zip` is `base` |
| Driver.YearOfArchiveName | src/etl_pipeline.py:157-161 | `…<yyyy>.zip` is written to `traffic_volume_<yyyy>.parquet` |
| Driver.OutputName | src/etl_pipeline.py:161 | the output name is `traffic_volume_`, then the year, then `.parquet` |
| Driver.OutputNameInjective | src/etl_pipeline.py:161 | distinct years give distinct output files |
| Driver.RunOverSpec | src/etl_pipeline.py:155-165 | the run writes a prefix of the archives in order, each walk's rows to its path; it stops exactly at the first walk that raises |
| Driver.RunSpec | src/etl_pipeline.py:150-165 | `main` writes at most one file per archive, and writes one for every archive exactly when nothing raises |
| Driver.RunSpecWrites | src/etl_pipeline.py:155-164 | the `k`-th file written holds the rows of the `k`-th archive in sorted name order, and is named after that archive's year |
| Driver.RunSpecStops | src/etl_pipeline.py:155-159 | a run that stops early stops at the first archive whose processing raises, with its error; the files already written remain |
| Driver.RunAdvance | src/etl_pipeline.py:155-164 | one archive either stops the run with its error or writes one file and moves on |
| Driver.Run | src/etl_pipeline.py:150-165 | the loop of `main` returns exactly `RunSpec` |
| Driver.RunArchives | src/etl_pipeline.py:155-165 | the loop over the sorted names returns the run over their paths and walks |

## Left out

- The spatial join of sites with suburb polygons (lines 23-31) and the column renaming (lines 34-38, 83-92) are out of scope. The site table enters with its suburb already joined; a site outside every polygon has no suburb.
- The sort of the site table at line 44 and the CSV it is saved to are left out. Selection reads that file back, and `isin` does not depend on row order.
- File I/O is not modelled: `read_csv`, `read_file`, `to_csv`, `to_parquet`, `glob` and the directory part of paths. A run returns the files it would write, in order. The directory is a list of named archives; `glob("*.zip")` is assumed to have listed them.
- Zip decompression is not modelled. An archive is a list of named entries with given contents. A yearly file that `zipfile.ZipFile` cannot open at line 131 (not a zip archive, or a directory whose name ends in `.zip`) is `NotZipArchive`. An inner entry that is not a zip archive is `NotZip`. A CSV that fails to parse is `Unreadable`: a missing column or a value that does not fit the `int16`/`int8` read dtypes (lines 57-60).
- Cleaning.ProcessCsv: the date conversion `pd.to_datetime` at line 110 is not modelled. `datetime` is carried as the string read. In the source the conversion runs after the site and signal filters (lines 95, 100), so a bad date raises only when it is in a surviving row; which entries raise therefore depends on the selected sites. The model has no such failure: a CSV entry either parses (`Rows`) or is `Unreadable` whatever the selection.
- Cleaning.Clean: a missing date is not modelled. `fillna(0)` at line 103 fills every column, so a missing `datetime` becomes `0` before line 110 converts it; in the model every row has a date string.
- Integer widths are not modelled; integers are unbounded. The source narrows in two places: the per-cell cast `astype("int16")` at line 111, and the cast of the selected site ids `astype("int16")` at line 70. Those casts do not preserve a cell or a site id outside the `int16` range; the model keeps the value. The hourly sums (line 114) and the working period count after the subtraction at line 106 are `int64` in the source, so keeping them unbounded changes nothing for realistic data.
- Logging (lines 12-16, 72, 143, 165) has no observable effect on the data and is left out.
- Driver.RunSpecWrites: the outcome of each archive is stated through `Outcomes`, which is `ProcessZip` of the file of that name, rather than by writing `ProcessZip` out; the same holds for Driver.RunSpecStops.
- Archive.ProcessChildZip: the inner loop of `process_zip_file` is split into two methods: `ProcessChildZip` sorts the names and `ProcessCsvEntries` runs the loop. The behaviour is the same.
