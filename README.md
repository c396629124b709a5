# EVDataETL: a verified model of the electric-vehicle registration pipeline

This project models the `EVDataETL` class of `q3/etl_script.py`. The class turns a batch of
vehicle-registration rows into a star schema in three stages:

- **Cleaning.** Missing values are filled. Two categorical columns get integer codes. Model
  decade, year category and a VIN hash are derived.
- **Dimensions.** Four dimension tables are built: location, vehicle, utility and time. Each
  keeps the distinct tuples of its columns in order of first occurrence and keys them 1..n.
- **Facts.** The fact table is the cleaned frame left-merged with the four dimensions, reduced
  to the foreign keys and measures, and numbered with `registration_id`.

A pandas frame is a `seq<Row>` here. A missing cell (NaN or None) is `None`.

Files:

- `records.dfy`: the `Row` record and its column accessors.
- `median.dfy`: the median used for Electric Range.
- `cleaning.dfy`: the cleaning stage as whole-frame functions.
- `frames.dfy`: `drop_duplicates` with surrogate keys, and the left merge.
- `text.dfy`: `str.replace(pat, '')` and `str.split()`.
- `dimensions.dfy`: the four dimensions and the `POINT (lon lat)` parse.
- `facts.dfy`: the fact table and its referential-integrity and row-count lemmas.
- `etl.dfy`: the class `EVDataETL`, whose methods reassign its fields stage by stage.

Each method is proved to leave in its field exactly the table that the pure function for its
stage defines. The properties are proved about those functions.

Three things the code gets from outside are parameters:

- the MD5 hex digest is `md5Hex`;
- Python's `float()` on a coordinate token is `toFloat`, which returns None where `float()`
  raises;
- `datetime.now().year` is `currentYear`.

The location dimension deduplicates on seven columns, Vehicle Location included. The fact
table joins it on only six (`q3/etl_script.py:328-332` against `:421-425`). The model keeps
this as written:

- `Facts.OneFactPerRecord` proves one fact per registration, in frame order, only when
  Vehicle Location is a function of the six join columns.
- `Facts.LocationDuplicates` proves that otherwise the location merge has more rows than the
  frame, so the fact table does too.
- `Facts.FactCountIff` proves that the fact table has exactly one row per registration if
  and only if that condition holds.

Three behaviours of the code that are easy to miss are kept as written:

- a Model Year outside every bin of `pd.cut` is not treated as missing; it only gets no
  Year_Category (`q3/etl_script.py:283-288`);
- State and Model Year are never filled (`q3/etl_script.py:212-242` lists neither);
- when no row has an Electric Range, `median()` is NaN, so the fill leaves the column missing
  rather than setting 0 (`q3/etl_script.py:223-226`).

## Model

| member | source | states |
|---|---|---|
| Median.Sort | q3/etl_script.py:224 | the result is sorted and is a permutation of the input values |
| Median.MedianOf | q3/etl_script.py:224 | there is no median exactly when no value is present; otherwise at least half of the values are at or below it and at least half at or above it |
| Median.MedianOrderIndependent | q3/etl_script.py:224 | the median depends only on the multiset of present values, not on row order |
| Cleaning.FillTexts | q3/etl_script.py:215-219 | filling text columns one after another fills exactly those columns (missing becomes "Unknown", present is kept) and changes nothing outside the text columns |
| Cleaning.FillGeos | q3/etl_script.py:237-241 | the same for the geographic columns |
| Cleaning.MissingTexts | q3/etl_script.py:217-218 | `isnull().sum()` is at most the row count and is zero exactly when no row misses the column |
| Cleaning.MissingGeos | q3/etl_script.py:239-240 | the same for a geographic column |
| Cleaning.FillTextPresent | q3/etl_script.py:217-219 | filling a categorical cell that is present leaves the row unchanged, so skipping the fill when nothing is missing changes nothing |
| Cleaning.FillGeoPresent | q3/etl_script.py:239-241 | the same for a geographic cell |
| Cleaning.FillTextsStep | q3/etl_script.py:215-220 | one pass of the categorical loop, whether it fills or skips, extends the fill by exactly one more column |
| Cleaning.FillGeosStep | q3/etl_script.py:237-242 | one pass of the geographic loop extends the fill by exactly one more column |
| Cleaning.FillsInOrder | q3/etl_script.py:212-242 | categorical fills, then Electric Range and Base MSRP, then geographic fills, in that order, give `HandleMissingValues` |
| Cleaning.PresentRangesSame | q3/etl_script.py:212-226 | the median fill depends only on the Electric Range column, so the earlier text fills cannot change it |
| Cleaning.PresentRanges | q3/etl_script.py:224 | the present Electric Range values are empty exactly when every row misses Electric Range |
| Cleaning.PresentRangesAppend | q3/etl_script.py:224 | the present values of two frames one after the other are the present values of each, in turn |
| Cleaning.PresentRangesCount | q3/etl_script.py:224 | each value occurs among the present Electric Range values exactly as many times as there are rows holding it, so with `MedianOrderIndependent` the median is that of the column's non-missing cells |
| Cleaning.NormalizeRowProperties | q3/etl_script.py:212-242 | for one row: missing listed categorical and all geographic cells become "Unknown", present cells are kept, Base MSRP defaults to 0, Electric Range defaults to the fill, and every other column is unchanged |
| Cleaning.HandleMissingValues | q3/etl_script.py:205-242 | the row count is kept; listed categorical and geographic columns have no missing value afterwards; present values are untouched; a missing Base MSRP becomes 0; a missing Electric Range becomes the batch median; State, Model Year, VIN and the other columns are untouched |
| Cleaning.RangeStaysMissing | q3/etl_script.py:223-226 | a missing Electric Range stays missing exactly when no row of the batch has one |
| Cleaning.EvTypeCode | q3/etl_script.py:249-256 | the code is in {0,1,2}; it is 1 exactly for the BEV label and 2 exactly for the PHEV label, and 0 for anything else, "Unknown" and missing included |
| Cleaning.CafvCode | q3/etl_script.py:260-268 | the code is in {0,1,2,3}; 1, 2 and 3 exactly for the three listed eligibility labels, 0 for anything else |
| Cleaning.EncodeCategoricalVariables | q3/etl_script.py:244-268 | every row is kept and only EV_Type_Code and CAFV_Code are written, each the code of the row's own label |
| Cleaning.Decade | q3/etl_script.py:277 | Model_Decade is a multiple of 10 with decade <= year < decade + 10 |
| Cleaning.YearCategoryOf | q3/etl_script.py:283-288 | with right-closed bins: 'Pre-2015' exactly for years in [0, 2015], '2015-2020' exactly for (2015, 2020], '2021+' exactly for (2020, currentYear + 1]; other years and a missing year get no category |
| Cleaning.Prefix10 | q3/etl_script.py:294 | `[:10]` gives a prefix of the string whose length is ten, or the whole length when the string is shorter |
| Cleaning.VinHash | q3/etl_script.py:293-295 | "Unknown" for a missing VIN; otherwise the prefix of the VIN's digest of length ten, or the whole digest when it is shorter |
| Cleaning.CleanedRowIs | q3/etl_script.py:191-200 | row j of the cleaned frame is row j after the fills, with the two codes, the decade, the year category and the VIN hash written |
| Cleaning.CleanedProperties | q3/etl_script.py:191-295 | cleaning keeps every row; each cleaned row has its categorical, geographic and Base MSRP cells filled, codes that agree with their labels, derived time fields that agree with Model Year, and a VIN hash; Model Year, State, VIN, Vehicle Location and DOL Vehicle ID keep their values |
| Frames.Distinct | q3/etl_script.py:332 | `drop_duplicates` is no longer than its input, contains every input tuple, contains only input tuples, and has no tuple twice |
| Frames.SurrogateKey | q3/etl_script.py:351 | the key of an input tuple is in 1..n and names the dimension row holding that tuple |
| Frames.DistinctFirstSeenOrder | q3/etl_script.py:332 | deduplicated tuples come in order of first occurrence |
| Frames.DistinctHead | q3/etl_script.py:332 | the first input tuple is the first deduplicated tuple |
| Frames.DedupAndKeyProperties | q3/etl_script.py:332-351 | keys are exactly 1..n in row order; no tuple is listed twice; rows follow first occurrence; every input tuple is listed under its key; the first input tuple gets key 1; n <= number of rows |
| Frames.Matches | q3/etl_script.py:421-448 | the matches of a merge key are table rows carrying that key, and every table row carrying it is among them |
| Frames.MatchesNone | q3/etl_script.py:421-448 | a key no table row carries has no match |
| Frames.MatchesSingle | q3/etl_script.py:421-448 | a key that exactly one table row carries is matched by that row alone |
| Frames.MatchesDedup | q3/etl_script.py:428-434 | merging on the full tuple a table was deduplicated on matches exactly the row of that tuple |
| Frames.MatchesInOrder | q3/etl_script.py:421-448 | the matches of a key come in table order: they form a subsequence of the table |
| Frames.MatchesCount | q3/etl_script.py:421-448 | a table row carrying the key occurs among its matches exactly as often as in the table, and a row not carrying it never does |
| Frames.MergeLeft | q3/etl_script.py:421-448 | a left merge never has fewer rows than its left side |
| Frames.MergeLeftKeeps | q3/etl_script.py:421-448 | every left row appears in the merge joined with each table row that carries its key |
| Frames.MergeLeftKeepsUnmatched | q3/etl_script.py:421-448 | a left row that no table row matches appears in the merge with a missing key |
| Frames.Fan | q3/etl_script.py:421-448 | the rows one left row gives: one per entry of its match list, each with that entry's key, or a single row with a missing key when nothing matches (table order and one entry per matching row come from `MatchesInOrder` and `MatchesCount`) |
| Frames.MergeLeftAppend | q3/etl_script.py:421-448 | merging two frames one after the other gives the merge of each, in turn |
| Frames.MergeLeftBlock | q3/etl_script.py:421-448 | left row j's rows (as `Fan` states them) sit as one block after the merge of the rows before it and before the merge of the rows after it |
| Frames.MergeLeftLength | q3/etl_script.py:421-448 | a left merge keeps the row count exactly when no left row matches two table rows |
| Frames.MergeLeftOneToOne | q3/etl_script.py:421-448 | when every left row matches exactly one table row, output row i is left row i with the key of its match |
| Frames.MergeLeftResolves | q3/etl_script.py:421-448 | when every left row has a match, every output row carries the key of a matching table row (no missing foreign key) |
| Text.RemoveAllAbsent | q3/etl_script.py:343 | `replace(pat, '')` changes nothing when the pattern's first character does not occur |
| Text.RemoveAllChar | q3/etl_script.py:343 | after `replace(')', '')` no ')' remains |
| Text.Split | q3/etl_script.py:343 | every token `split()` returns is non-empty and contains no whitespace |
| Text.SplitJoinWords | q3/etl_script.py:343 | `split()` undoes joining words with single spaces |
| Dimensions.Coordinates | q3/etl_script.py:335-348 | a missing or "Unknown" Vehicle Location leaves both coordinates unset; a cell that does not split into exactly two tokens after removing "POINT (" and ")" leaves both unset; with two tokens, Longitude is `float` of the first and Latitude `float` of the second, set only when Longitude is |
| Dimensions.StripPoint | q3/etl_script.py:343 | for a body containing neither 'P' nor ')', deleting "POINT (" and ")" from "POINT (" + body + ")" gives back the body |
| Dimensions.PointRoundTrip | q3/etl_script.py:339-348 | a well-formed "POINT (lon lat)" cell parses to `float(lon)` and `float(lat)`; a bad longitude leaves both unset; a bad latitude leaves only Longitude set |
| Dimensions.LocationDimensionFrom | q3/etl_script.py:332-351 | numbering the distinct location tuples, each with the coordinates parsed from its own Vehicle Location, gives the Location dimension |
| Dimensions.LocationDimensionProperties | q3/etl_script.py:328-357 | the Location dimension has at most one row per registration, keys 1..n, and every registration's six columns and parsed coordinates sit under the key of its seven-column tuple |
| Dimensions.DistinctSameShape | q3/etl_script.py:402 | two columns equal at the same pairs of rows have the same number of distinct values |
| Dimensions.TimeDimensionSize | q3/etl_script.py:401-405 | when decade and category are derived from Model Year, the Time dimension has exactly one row per distinct Model Year |
| Facts.LocationMatchExists | q3/etl_script.py:421-425 | every registration's six location columns match some location row |
| Facts.LocationStage | q3/etl_script.py:421-425 | after the location merge every row has a location key naming a row that carries its six columns |
| Facts.VehicleStage | q3/etl_script.py:428-434 | after the vehicle merge every row also has a vehicle key naming the row of its own vehicle tuple |
| Facts.UtilityStage | q3/etl_script.py:437-441 | after the utility merge every row also has a utility key naming the row of its own utility |
| Facts.TimeStage | q3/etl_script.py:444-448 | after the time merge every row also has a time key naming the row of its own time tuple |
| Facts.JoinedResolved | q3/etl_script.py:421-448 | after the four merges every row is resolved in all four dimensions |
| Facts.FactsResolve | q3/etl_script.py:413-461 | referential integrity: registration ids run 1..n, and every fact records a registration of the frame with all four foreign keys present and naming dimension rows that carry its columns |
| Facts.LocationMatchUnique | q3/etl_script.py:328-332 | when Vehicle Location is a function of the six join columns, a registration matches exactly the location row of its seven-column tuple |
| Facts.LocationMergeKeys | q3/etl_script.py:421-425 | under that condition the location merge is row-for-row and row j gets the key of its own location tuple |
| Facts.VehicleMergeKeys | q3/etl_script.py:428-434 | the vehicle merge of any frame of registrations (whatever the location merge did) is row-for-row and each row gets the key of its own registration's vehicle tuple |
| Facts.UtilityMergeKeys | q3/etl_script.py:437-441 | the utility merge of any frame of registrations is row-for-row and each row gets the key of its own registration's utility |
| Facts.TimeMergeKeys | q3/etl_script.py:444-448 | the time merge of any frame of registrations is row-for-row and each row gets the key of its own registration's time tuple |
| Facts.LocationOneToOne | q3/etl_script.py:421-425 | under the condition, the location merge follows the registrations row for row, each resolved in the Location dimension |
| Facts.VehicleOneToOne | q3/etl_script.py:428-434 | the vehicle merge keeps following the registrations row for row and resolves each in the Vehicle dimension |
| Facts.UtilityOneToOne | q3/etl_script.py:437-441 | the utility merge keeps following the registrations row for row and resolves each in the Utility dimension |
| Facts.TimeOneToOne | q3/etl_script.py:444-448 | the time merge keeps following the registrations row for row and resolves each in the Time dimension |
| Facts.RegisterRows | q3/etl_script.py:450-461 | numbering merged rows that follow the frame gives one fact per registration, in order, with registration_id j + 1 |
| Facts.OneFactPerRecord | q3/etl_script.py:413-461 | when Vehicle Location is a function of the six location columns, the fact table has exactly one row per registration, in frame order, fact j has registration_id j + 1 and records registration j |
| Facts.TwoLocationMatches | q3/etl_script.py:328-332 | two registrations with the same six columns but different Vehicle Locations match two location rows |
| Facts.LocationBlock | q3/etl_script.py:421-425 | in the location merge registration j gives one block, after the merge of the registrations before it and before the merge of those after it, made of `Fan` of its matching location rows |
| Facts.LocationBlockRows | q3/etl_script.py:421-425 | that block is exactly max(1, m) consecutive rows, m being the number of location rows carrying registration j's six columns, starting after the rows of the earlier registrations; each carries registration j with one matching row's key in dimension order, or no key when m = 0 |
| Facts.LocationDuplicates | q3/etl_script.py:421-425 | without the condition, the location merge has more rows than the frame |
| Facts.JoinedContains | q3/etl_script.py:421-448 | a registration joined with the location, vehicle, utility and time rows carrying its columns is a row of the merged frame |
| Facts.FactFor | q3/etl_script.py:421-461 | such a merged row becomes a fact with the four keys of those dimension rows and the registration's measures |
| Facts.EveryRegistrationHasFact | q3/etl_script.py:413-461 | every registration is recorded by some fact whose four keys name dimension rows carrying its columns, whether or not Vehicle Location is a function of the six location columns |
| Facts.RegistrationFact | q3/etl_script.py:413-461 | registration j is recorded by a fact whose location, vehicle, utility and time keys are the surrogate keys of its own four tuples (`KeyOf`), and whose measures are its own |
| Facts.LaterMerges | q3/etl_script.py:428-448 | after any location merge, the vehicle, utility and time merges keep the row count and row order, each row gaining the keys of its own registration's vehicle, utility and time tuples |
| Facts.FactsFollowLocationMerge | q3/etl_script.py:413-461 | whatever the Vehicle Locations, the fact table has exactly as many rows as the location merge, and fact i is row i of that merge numbered i + 1, with its location key, the keys of its registration's own vehicle, utility and time tuples, and that registration's measures |
| Facts.EveryLocationUsed | q3/etl_script.py:328-357 | every row of the Location dimension is named by the location key of some fact |
| Facts.EveryVehicleUsed | q3/etl_script.py:360-380 | every row of the Vehicle dimension is named by the vehicle key of some fact |
| Facts.EveryUtilityUsed | q3/etl_script.py:382-394 | every row of the Utility dimension is named by the utility key of some fact |
| Facts.EveryTimeUsed | q3/etl_script.py:396-411 | every row of the Time dimension is named by the time key of some fact |
| Facts.FactCountIff | q3/etl_script.py:413-461 | the fact table never has fewer rows than the frame, and has exactly as many if and only if Vehicle Location is a function of the six location columns |
| Etl.ParseLocations | q3/etl_script.py:336-348 | the coordinate pass over the array of location rows leaves, for every row, the parse of that row's own Vehicle Location |
| Etl.EVDataETL.constructor | q3/etl_script.py:28-39 | a new pipeline keeps the URL and has no raw data, no cleaned data, no dimensions and no fact table |
| Etl.EVDataETL.ExtractData | q3/etl_script.py:60-66 | the read frame becomes the raw data and is returned; nothing else changes |
| Etl.EVDataETL.CleanAndTransform | q3/etl_script.py:177-203 | without raw data: the "no raw data" error and nothing changes; when `pd.cut` refuses the bins: that error, with the partly cleaned copy left behind and marked as lacking Year_Category and VIN_Hash; otherwise the cleaned frame `Cleaning.Cleaned` is stored and returned; raw data and the tables are untouched |
| Etl.EVDataETL.HandleMissingValues | q3/etl_script.py:205-242 | the cleaned frame becomes `Cleaning.HandleMissingValues` of the old one; no other field changes |
| Etl.EVDataETL.FillCategoricalColumns | q3/etl_script.py:215-220 | the categorical loop, filling a column only when it has a missing cell, leaves the frame with every listed categorical column filled in list order |
| Etl.EVDataETL.FillGeoColumns | q3/etl_script.py:237-242 | the geographic loop leaves the frame with every geographic column filled in list order |
| Etl.EVDataETL.EncodeCategoricalVariables | q3/etl_script.py:244-269 | the cleaned frame becomes `Cleaning.EncodeCategoricalVariables` of the old one; no other field changes |
| Etl.EVDataETL.CreateDerivedFields | q3/etl_script.py:271-296 | Model_Decade is written; then, if the bins increase, Year_Category and VIN_Hash too and the frame is marked as having them, otherwise it reports failure and the frame is marked as lacking them; no other field changes |
| Etl.EVDataETL.CreateDimensionalModel | q3/etl_script.py:298-322 | without cleaned data: the "no cleaned data" error and nothing changes; when the frame lacks Year_Category: the KeyError of the time dimension, with the location, vehicle and utility dimensions already stored and no fact table written; otherwise the four dimensions built from the cleaned frame are stored under their names, the fact table built from them is stored, and both are returned together under their names |
| Etl.EVDataETL.CreateLocationDimension | q3/etl_script.py:324-358 | stores the Location dimension of the cleaned frame, with parsed coordinates, as dim_location; no other field and no other table changes |
| Etl.EVDataETL.CreateVehicleDimension | q3/etl_script.py:360-380 | stores the Vehicle dimension of the cleaned frame as dim_vehicle; no other field and no other table changes |
| Etl.EVDataETL.CreateUtilityDimension | q3/etl_script.py:382-394 | stores the Utility dimension of the cleaned frame as dim_utility; no other field and no other table changes |
| Etl.EVDataETL.CreateTimeDimension | q3/etl_script.py:396-411 | when the frame has Year_Category, stores the Time dimension of the cleaned frame as dim_time; otherwise reports the missing column and stores nothing; no other field and no other table changes |
| Etl.EVDataETL.CreateFactTable | q3/etl_script.py:413-463 | stores the fact table built from the cleaned frame and the four stored dimensions; the frame and the dimensions are untouched |

## Left out

- `extract_data` (`q3/etl_script.py:41-71`): the HTTP download, the temporary file and
  `read_csv` are I/O. `ExtractData` takes the read frame as its argument.
- `explore_data` and the `_analyze_*` helpers (`q3/etl_script.py:73-175`): printed
  floating-point statistics only.
- `load_to_warehouse` and `_create_indexes` (`q3/etl_script.py:465-517`): SQLite I/O.
- `export_to_csv`, `generate_summary_report` and `main` (`q3/etl_script.py:519-637`):
  file output, printing and a float percentage.
- All `print` output, and the re-raise after printing in `extract_data`.
- The `if col in columns` guards: the schema of the read frame is fixed, so every guard on a
  source column holds. The one column set that can be absent is Year_Category and VIN_Hash,
  after `pd.cut` refuses its bins; `derivedColumns` records that, and the time dimension then
  fails with the KeyError of `q3/etl_script.py:402`. The location, vehicle and utility builders
  do not read those columns.
- MD5, `float()` and the clock: these are parameters (`md5Hex`, `toFloat`, `currentYear`). The
  fact-table lemmas hold for any coordinate parser `parse`.
- Pandas dtypes: floats become reals and integers become unbounded ints. Not modelled:
  - the categorical dtype of Year_Category;
  - the mixed int/str geographic columns after the "Unknown" fill (a `Cell` is either);
  - `astype(int)` on the codes, which is exact here.
- `Median.MedianOf`: the exact value is defined as the middle element, or the mean of the
  two middle elements. The contract states the half-count property and order independence,
  not the mean formula. Float rounding of the mean is not modelled.
- `Cleaning.VinHash`: `str(x).encode()` and the digest are folded into `md5Hex`, so the
  contract cannot state that the digest is 32 hexadecimal characters; it states the prefix for a
  digest of any length.
- Columns that the location merge brings into the merged frame besides `location_id`
  (Latitude, Longitude): they are dropped again by the projection onto the fact columns, so
  they are not carried.
- `Frames.MergeLeft`: the rows one left row gives follow the dimension table's order
  (`Frames.Fan`, `Frames.MergeLeftBlock`). Where pandas orders several matches of one left row
  differently, the model does not capture that order; the number of rows and their contents
  do not depend on it.
- `Etl.ParseLocations`: the pass writes one array cell per row. The two separate
  `.loc` writes of Longitude and then Latitude are folded into one cell write of the
  `Coordinates` result. `Dimensions.Coordinates` keeps their order: a failing Latitude
  leaves the Longitude already set.
