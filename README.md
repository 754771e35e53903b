# Colombian mortality dashboard: aggregation and filter layer

This project models the data layer of a Dash dashboard over the 2019 Colombian mortality records (the DANE
microdata). It proves properties of the model in Dafny. Four parts of the program are modelled:

- **The seven pandas pipelines** of `src/data_processing/data_loader.py`, in module `DataLoader`:
  - deaths per department;
  - deaths per month with the month name;
  - the five municipalities with most firearm homicides (COD_MUERTE starting with `X95`);
  - the ten municipalities with fewest deaths;
  - the ten most frequent (code, description) causes;
  - the 21-bin age histogram;
  - deaths per (department, gender).
- **The filter bodies of the six callbacks** of `src/callbacks/callbacks.py`, in module `Callbacks`:
  - display labels become raw codes through inverted dictionaries;
  - the record set is narrowed one filter at a time;
  - an empty or missing selection means "no filter";
  - the violent-cities callback parses `"code - description"` strings in a loop.
- **The two data steps inside the chart builders** of `src/visualizations/charts.py`, in module `Charts`:
  - department names are normalised to the GeoJSON names;
  - the gender chart keeps only its ten departments with most deaths.
- **The `MONTH_NAMES` constant and the option coercion of `create_filter_card`** from `src/utils/utils.py`, in module `Utils`.

Two modules support them:

- `Collections` holds Python's dict as an association list, `Keep` (boolean-mask filtering), `MapSeq`,
  `SortByRank` (a sort by an integer key) and `Head`.
- `Grouping` holds the group-by primitive. It mirrors `groupby(...).size()` / `.sum()` with pandas'
  defaults `dropna=True, sort=True`: rows whose key is null are dropped, and the groups come out in
  ascending key order. This needs a strict total order on the key, proved for integers, strings
  (Python's code-point order) and pairs of strings.

Modelling choices:

- A mortality record is a datatype with one field per column the core reads. A NaN cell in an optional column (COD_MUERTE, MANERA_MUERTE, GRUPO_EDAD1) is `None`.
- A left merge on COD_DANE is a lookup in a `map` from division code to division. The division table
  therefore has one row per code.
- `sort_values` is not stable. Every ranking lemma is proved from "the rows form a permutation of the
  groups sorted by the rank", so it holds for whatever order pandas picks among ties.
- Python's `str.upper` and `str` enter as function parameters.

Four behaviours of the code are worth stating plainly; the model follows the code:

- **Violent cities.** The pipeline keeps records whose COD_MUERTE starts with `X95`. It does not look
  at the manner of death. DataLoader.ViolentCitiesExample shows this for the corrected callback with
  the selection ["X95"]: two `X95` records and one `X96` record of one municipality give the count 2.
  Its requires leave MANERA_MUERTE unconstrained, so the count is 2 whatever the manner fields hold.
- **Top causes.** A record whose code has no description is dropped by the group-by (its key holds a
  null). It is not counted under its raw code.
- **Cause selection without `" - "`.** `split(' - ')[0]` returns the whole string. The string is not
  dropped.
- **Unknown month name or gender label.** The dictionary lookup raises `KeyError`, modelled as an
  `Err` result. It does not degrade gracefully.

## Model

| member | source | states |
|---|---|---|
| Utils.MonthName | src/utils/utils.py:51-54 | `MONTH_NAMES.get(m)`; Utils.MonthNamesKeys states when it gives a name and Utils.MonthNamesRoundTrip that the inverted table sends each name back to its month |
| Utils.MonthNamesWellFormed | src/utils/utils.py:51-54 | MONTH_NAMES has twelve entries; entry i has key i+1; keys are unique and month names distinct |
| Utils.MonthNamesKeys | src/utils/utils.py:51-54 | `MONTH_NAMES.get(m)` gives a name exactly when 1 <= m <= 12 |
| Utils.MonthNamesRoundTrip | src/utils/utils.py:51-54 | the inverted table sends a month's name back to that month, and any name it resolves belongs to a month in 1..12: a round trip in both directions |
| Utils.CoerceDicts | src/utils/utils.py:30 | the dict-coercing comprehension; its contract is stated by Utils.CoerceDictsSpec (AttributeError exactly when some option is not a dict, otherwise element-wise `get` with the defaults) |
| Utils.NormalizeOptions | src/utils/utils.py:24-30 | the option normalisation of `create_filter_card`; its contract is stated by Utils.NormalizeOptionsSpec (each branch) and Utils.NormalizeOptionsIdempotent |
| Utils.CoerceDictsSpec | src/utils/utils.py:28-30 | the comprehension succeeds exactly when every option is a dict (otherwise `.get` raises AttributeError); it keeps length and order, and each element carries its own label/value or the `str(opt)`/`opt` default |
| Utils.NormalizeOptionsSpec | src/utils/utils.py:24-30 | None and [] pass unchanged; a list whose first element is not a dict is wrapped element by element; a list whose first dict has both keys passes unchanged; otherwise every element is coerced |
| Utils.NormalizeOptionsIdempotent | src/utils/utils.py:24-30 | normalising an already normalised option list changes nothing |
| Grouping.Tally | src/visualizations/charts.py:366 | `groupby(key)[w].sum()`: rows come out ascending by key; the keys are exactly the non-null keys; each total is the sum of that key's weights; the grand total is the sum of the non-null weights |
| Grouping.GroupCount | src/data_processing/data_loader.py:60 | `groupby(key).size()`, used by every pipeline; its contract is stated by Grouping.GroupCountSpec |
| Grouping.GroupCountSpec | src/data_processing/data_loader.py:60 | `groupby(key).size()`: ascending, distinct keys, one row per non-null key, each count the number of its occurrences (> 0), total = non-null rows <= all rows |
| Grouping.TopCounts | src/data_processing/data_loader.py:107-110 | for ANY sort of the counts by the rank, `head(n)` has min(n, #keys) rows, is sorted, has distinct keys with exact counts, and no omitted key ranks strictly before a kept one |
| DataLoader.OccurrencesOfColumn | src/data_processing/data_loader.py:53-60 | the count of a key in a joined column equals the number of records whose join yields that key |
| DataLoader.DepartmentMap | src/data_processing/data_loader.py:41-62 | `process_data_for_department_map`; its contract is stated by DataLoader.DepartmentMapSpec |
| DataLoader.DepartmentMapSpec | src/data_processing/data_loader.py:53-60 | one row per joined department, in ascending name order; TOTAL_DEATHS is the number of records joining to it (> 0); the sum is the number of joined records, which is at most the number of records |
| DataLoader.DepartmentMapExample | src/data_processing/data_loader.py:53-60 | two records joining to "X" and one with no division entry give exactly the row ("X", 2) |
| DataLoader.MonthlyDeaths | src/data_processing/data_loader.py:65-82 | `process_data_for_monthly_deaths`; its contract is stated by DataLoader.MonthlyDeathsSpec and DataLoader.MonthlyDeathsAtMostTwelve |
| DataLoader.MonthGroupsSpec | src/data_processing/data_loader.py:76-77 | after the sort on MES the groups are strictly ascending by month, one per month present, each with its exact count |
| DataLoader.MonthlyDeathsSpec | src/data_processing/data_loader.py:76-80 | strictly ascending MES; a month has a row exactly when some record has it; exact counts; MONTH_NAME = `MONTH_NAMES.get(MES)` |
| DataLoader.MonthlyDeathsAtMostTwelve | src/data_processing/data_loader.py:76-80 | when every MES is in 1..12 there are at most 12 rows and every MONTH_NAME is present (no NaN) |
| DataLoader.FirearmHomicide | src/data_processing/data_loader.py:97 | `COD_MUERTE.str.startswith('X95', na=False)`: a missing code is never a firearm homicide; DataLoader.ViolentCitiesSpec states what the filter feeds into the ranking |
| DataLoader.ViolentCities | src/data_processing/data_loader.py:85-112 | `process_data_for_violent_cities`; its contract is stated by DataLoader.ViolentCitiesSpec |
| DataLoader.ViolentCitiesSpec | src/data_processing/data_loader.py:97-110 | min(5, #municipalities with an X95 death) rows, non-increasing, with distinct municipalities and exact counts > 0; no omitted municipality has more firearm homicides than a listed one |
| DataLoader.ViolentCitiesFor | src/callbacks/callbacks.py:184-192 | part of the corrected violent-cities callback: the four-argument call the callback makes, read as the X95 pipeline of data_loader.py:97-110 narrowed to the selected codes; its contract is stated by DataLoader.ViolentCitiesForSpec |
| DataLoader.ViolentCitiesForSpec | src/callbacks/callbacks.py:184-192 | part of the corrected callback (the call at line 192 with the X95 filter of data_loader.py:97-110): the code-restricted ranking equals the plain one when no code is selected; otherwise it ranks exactly the X95 records whose code is selected |
| DataLoader.ViolentCitiesForOtherCodes | src/callbacks/callbacks.py:184-192 | part of the corrected callback: a non-empty selection made only of codes outside X95 (such as the format example "X994" of line 187) ranks nothing |
| DataLoader.WithCodesExample | src/callbacks/callbacks.py:184-192 | part of the corrected callback: the exact-code restriction by the selected codes; causes X95, X96, X95 with the selection ["X95"] keep the first and third records |
| DataLoader.ViolentCitiesExample | src/callbacks/callbacks.py:184-192 | part of the corrected callback (the call at line 192 with the X95 pipeline of data_loader.py:97-110): three records of one municipality with causes X95, X96, X95 and selection ["X95"] give exactly [("M1", 2)] |
| DataLoader.LowestMortalityCities | src/data_processing/data_loader.py:115-142 | `process_data_for_lowest_mortality_cities`; its contract is stated by DataLoader.LowestMortalitySpec and DataLoader.LowestMortalityOmitted |
| DataLoader.LowestMortalitySpec | src/data_processing/data_loader.py:127-140 | min(10, #municipalities) rows; non-decreasing; distinct municipalities; exact DEATHS > 0 |
| DataLoader.LowestMortalityOmitted | src/data_processing/data_loader.py:134-140 | every listed count is at most the count of every omitted municipality |
| DataLoader.TopCauses | src/data_processing/data_loader.py:145-179 | `process_data_for_top_causes`; its contract is stated by DataLoader.TopCausesSpec and DataLoader.CauseKeysFromTable |
| DataLoader.CauseKeysFromTable | src/data_processing/data_loader.py:157-167 | any (code, description) group comes from the cause table: the code is in it and the description is its entry |
| DataLoader.TopCausesSpec | src/data_processing/data_loader.py:157-177 | min(10, #groups) rows under Código/Descripción/Total de Casos; non-increasing; distinct pairs; exact counts > 0; descriptions taken from the table; no omitted pair has more cases |
| DataLoader.AgeHistogram | src/data_processing/data_loader.py:182-209 | `process_data_for_age_histogram`; its contract is stated by DataLoader.AgeHistogramSpec, DataLoader.AgeBucketClosedForm and DataLoader.CutSpec |
| DataLoader.Cut | src/data_processing/data_loader.py:204 | `pd.cut(right=False)` on one value; its contract is stated by DataLoader.CutSpec and, for the fixed bins, DataLoader.AgeBucketClosedForm |
| DataLoader.CutSpec | src/data_processing/data_loader.py:204 | `pd.cut(right=False)` over increasing bins puts v in bin i exactly when bins[i] <= v < bins[i+1]; values outside all bins get no bin |
| DataLoader.AgeBucketClosedForm | src/data_processing/data_loader.py:196-204 | with the fixed bins, ages 0..99 go to bin v/5, ages 100..149 to bin 20 ("100+"), and every other value to no bin |
| DataLoader.AgeLabelsMatchBins | src/data_processing/data_loader.py:196-201 | 22 increasing bin edges and 21 labels, with "100+" on the bin starting at 100 |
| DataLoader.AgeHistogramSpec | src/data_processing/data_loader.py:204-207 | exactly 21 rows, one per label in bin order, including empty bins; each COUNT is the number of records in that bin |
| DataLoader.AgeGroupOf | src/data_processing/data_loader.py:204 | a record's age group is given by the closed form of its GRUPO_EDAD1 |
| DataLoader.AgeColumnExample | src/data_processing/data_loader.py:204 | ages 2, 7, 23, 101 fall in bins 0, 1, 4 and 20 |
| DataLoader.AgeHistogramExample | src/data_processing/data_loader.py:193-207 | ages 2, 7, 23, 101 give 1 in "0-4", "5-9", "20-24" and "100+", and 0 everywhere else |
| DataLoader.GenderDepartment | src/data_processing/data_loader.py:212-237 | `process_data_for_gender_department`; its contract is stated by DataLoader.GenderDepartmentSpec and DataLoader.GenderOfGroup |
| DataLoader.Gender | src/data_processing/data_loader.py:231-232 | `SEXO.map(gender_mapping)` on one record; its contract is stated by DataLoader.GenderLabels |
| DataLoader.GenderLabels | src/data_processing/data_loader.py:231-232 | SEXO 1, 2, 3 map to Masculino, Femenino, Indeterminado; any other code maps to NaN |
| DataLoader.GenderDepartmentSpec | src/data_processing/data_loader.py:224-235 | ascending by (department, gender); a pair has a row exactly when a joined record with a mapped SEXO has it; the gender is one of the three labels; exact counts > 0 |
| DataLoader.GenderOfGroup | src/data_processing/data_loader.py:231-235 | every pair that occurs carries one of the three gender labels |
| Callbacks.ToCodes | src/callbacks/callbacks.py:54-55 | `[{v: k ...}[label] for label in labels]` succeeds exactly when every label is a value of the table and then returns each label's code in order; otherwise it raises KeyError at the first label without a code |
| Callbacks.ResolvedCodes | src/callbacks/callbacks.py:54-56 | for a table with unique keys and distinct values, a code is among the translations exactly when the table maps it to a selected label |
| Callbacks.UnresolvedLabel | src/callbacks/callbacks.py:54-55 | a label has no code in the inverted table exactly when no entry of the table shows it |
| Callbacks.GenderMappingWellFormed | src/app.py:86 | the application's gender table has unique codes and distinct labels |
| Callbacks.GenderTranslationExample | src/callbacks/callbacks.py:54-55 | the selection ["Masculino"] translates to exactly the code list [1] |
| Callbacks.NoSelectionNoFilter | src/callbacks/callbacks.py:45-56 | a None or empty selection leaves the records untouched in the manner, month, gender and department filters |
| Callbacks.FilterManners | src/callbacks/callbacks.py:45-46 | the manner filter; its contract is stated by Callbacks.FilterMannersSpec and Callbacks.NoSelectionNoFilter |
| Callbacks.FilterMannersSpec | src/callbacks/callbacks.py:45-46 | `isin` keeps exactly the records whose MANERA_MUERTE is selected, in input order, each as often as in the input |
| Callbacks.WithMonthsSpec | src/callbacks/callbacks.py:49-51 | filtering on the translated month numbers keeps exactly the records whose MES has a selected name |
| Callbacks.WithGendersSpec | src/callbacks/callbacks.py:54-56 | filtering on the translated SEXO codes keeps exactly the records whose SEXO has a selected label |
| Callbacks.UnknownMonth | src/callbacks/callbacks.py:49-50 | a name without a number in the inverted MONTH_NAMES is the name of no month |
| Callbacks.FilterMonths | src/callbacks/callbacks.py:48-51 | the month filter; its contract is stated by Callbacks.FilterMonthsSpec |
| Callbacks.FilterMonthsSpec | src/callbacks/callbacks.py:48-51 | the month filter fails exactly when a selected name is no month; the failure is the KeyError of the first such name; otherwise it keeps exactly the records whose month is selected |
| Callbacks.FilterGenders | src/callbacks/callbacks.py:53-56 | the gender filter; its contract is stated by Callbacks.FilterGendersSpec |
| Callbacks.FilterGendersSpec | src/callbacks/callbacks.py:53-56 | the gender filter fails exactly when a selected label is not in the table, with the KeyError of the first such label; otherwise it keeps exactly the records whose SEXO has a selected label |
| Callbacks.FilterDepartments | src/callbacks/callbacks.py:88-96 | the department filter; its contract is stated by Callbacks.FilterDepartmentsSpec |
| Callbacks.FilterDepartmentsSpec | src/callbacks/callbacks.py:88-96 | merge-then-`isin` keeps exactly the records that join to a selected department; a record with no division entry never passes |
| Callbacks.UpdateMap | src/callbacks/callbacks.py:41-59 | the data part of `update_map`; its contract is stated by Callbacks.UpdateMapSpec |
| Callbacks.UpdateMapSpec | src/callbacks/callbacks.py:41-59 | the manner, month and gender filters in sequence equal the conjunction of the active selections; the map is the department map of exactly those records; it fails exactly when a month or gender label does not resolve |
| Callbacks.DeptGenderFilterSpec | src/callbacks/callbacks.py:85-101 | department then gender narrowing is the conjunction of the two selections; it fails exactly when a gender label does not resolve |
| Callbacks.UpdateMonthlyChart | src/callbacks/callbacks.py:85-104 | the data part of `update_monthly_chart`; its contract is stated by Callbacks.UpdateMonthlyChartSpec |
| Callbacks.UpdateMonthlyChartSpec | src/callbacks/callbacks.py:85-104 | the monthly series of exactly the records both selections admit; an error exactly when a gender label does not resolve |
| Callbacks.UpdateAgeHistogram | src/callbacks/callbacks.py:130-149 | the data part of `update_age_histogram`; its contract is stated by Callbacks.UpdateAgeHistogramSpec |
| Callbacks.UpdateAgeHistogramSpec | src/callbacks/callbacks.py:130-149 | the age histogram of exactly the records both selections admit; an error exactly when a gender label does not resolve |
| Callbacks.UpdateLowestMortalityChart | src/callbacks/callbacks.py:216-225 | the data part of `update_lowest_mortality_chart`; its contract is stated by Callbacks.UpdateLowestMortalityChartSpec |
| Callbacks.UpdateLowestMortalityChartSpec | src/callbacks/callbacks.py:216-225 | the lowest-mortality ranking of exactly the records the gender selection admits; an error exactly when a label does not resolve |
| Callbacks.UpdateGenderDeptChart | src/callbacks/callbacks.py:251-263 | the data part of `update_gender_dept_chart`; its contract is stated by Callbacks.UpdateGenderDeptChartSpec |
| Callbacks.UpdateGenderDeptChartSpec | src/callbacks/callbacks.py:251-263 | the gender x department table of exactly the records the manner and month selections admit; an error exactly when a month name does not resolve |
| Callbacks.CauseCode | src/callbacks/callbacks.py:188 | `desc.split(' - ')[0]` is a prefix of desc; no separator starts inside it; it is followed by a separator unless it is all of desc |
| Callbacks.CauseCodeWithoutSeparator | src/callbacks/callbacks.py:188 | a description without " - " is its own code |
| Callbacks.CauseCodeExample | src/callbacks/callbacks.py:187-188 | every description "X954 - ..." has the code "X954", whatever follows |
| Callbacks.SelectedCodes | src/callbacks/callbacks.py:184-189 | the loop collects one code per selected description, in order, and nothing when no type is selected |
| Callbacks.UpdateViolentCitiesChartAsWritten | src/callbacks/callbacks.py:175-192 | as written, the callback always fails: with the gender KeyError when a label does not resolve, otherwise with the TypeError of the four-argument call |
| Callbacks.UpdateViolentCitiesChart | src/callbacks/callbacks.py:175-192 | corrected: the gender error propagates; otherwise the result is the X95 ranking of the gender-filtered records restricted to the selected codes |
| Callbacks.ViolentCitiesCallbackSpec | src/callbacks/callbacks.py:175-192 | the corrected callback ranks exactly the admitted records; with no type selected this is the two-argument pipeline; with types selected it ranks the X95 records whose code is selected |
| Charts.ReplaceDepartment | src/visualizations/charts.py:71 | `replace(department_mapping)` on one name; its contract is stated by Charts.MappingSettles and Charts.ReplaceIdempotent |
| Charts.MappingSettles | src/visualizations/charts.py:29-68 | every target of `department_mapping` is either not a key or a key that maps to itself |
| Charts.ReplaceIdempotent | src/visualizations/charts.py:29-71 | `replace(department_mapping)` applied twice is the same as applied once |
| Charts.NormalizeDepartments | src/visualizations/charts.py:26-71 | upper-casing then `replace(department_mapping)`; its contract is stated by Charts.NormalizeDepartmentsSpec and Charts.NormalizeDepartmentsIdempotent |
| Charts.NormalizeDepartmentsSpec | src/visualizations/charts.py:23-71 | same rows in the same order, same TOTAL_DEATHS and national total; an upper-cased name that is a key is replaced by its entry, and any other name is only upper-cased |
| Charts.NormalizeDepartmentsIdempotent | src/visualizations/charts.py:26-71 | for an idempotent upper-casing that fixes the targets, normalising twice equals normalising once |
| Charts.NormalizeDepartmentsExample | src/visualizations/charts.py:34-35 | ATLÁNTICO and BARRANQUILLA D.E. both become ATLANTICO, yet stay two rows with their own totals (many-to-one, no merge) |
| Charts.DeptCountsWeights | src/visualizations/charts.py:366 | the summed COUNT of a department is the sum over its gender rows; a department has a group exactly when it has a row |
| Charts.DepartmentTotals | src/visualizations/charts.py:366 | `groupby('DEPARTAMENTO')['COUNT'].sum()`; its contract is stated by Charts.DepartmentTotalsSpec and Charts.DeptCountsWeights |
| Charts.DepartmentTotalsSpec | src/visualizations/charts.py:366 | `groupby('DEPARTAMENTO')['COUNT'].sum()` has one row per department, ascending and distinct, each total the department's summed deaths |
| Charts.TopDepartments | src/visualizations/charts.py:366 | `groupby('DEPARTAMENTO')['COUNT'].sum().nlargest(10)`; its contract is stated by Charts.TopDepartmentsSize, Charts.TopDepartmentsSorted and Charts.TopDepartmentsMaximal |
| Charts.TopDepartmentsSize | src/visualizations/charts.py:366 | `nlargest(10)` selects min(10, #departments) distinct departments, each with rows |
| Charts.TopDepartmentsSorted | src/visualizations/charts.py:366 | the selected departments come in non-increasing order of summed deaths |
| Charts.TopDepartmentsMaximal | src/visualizations/charts.py:366 | no department left out has more deaths than a selected one |
| Charts.KeepTopDepartments | src/visualizations/charts.py:366-369 | the `isin` on the ten departments; its contract is stated by Charts.KeepTopDepartmentsSpec |
| Charts.KeepTopDepartmentsSpec | src/visualizations/charts.py:366-369 | the `isin` keeps every row of a selected department as often as it occurs and in input order, drops all others, and the chart shows exactly the selected departments (at most ten) |

## Left out

- `load_data` and all file reading (CSV parsing, the GeoJSON read, fatal startup errors): this is I/O. The tables enter the model as values.
- Plotly figure construction, layout and styling in every chart builder, and the Dash layout, component ids and callback registration: this is presentation over foreign libraries.
- Python's Unicode `str.upper` is a parameter of the normalisation. `Charts.NormalizeDepartmentsIdempotent` assumes it is idempotent and fixes the table's targets, which are already upper case.
- `str(opt)` in `create_filter_card` is a parameter: Python's repr of a dict is not modelled.
- DataLoader.AgeLabelsMatchBins: does not prove that each label's text ("25-29") spells its bin edges; it proves only the counts, the order of the edges and the "100+" label on the last bin.
- DataLoader.AgeHistogramSpec: pandas' categorical group-by is modelled with observed=False, pandas' default before version 3.0. With observed=True the empty bins would be dropped.
- The division and cause tables are maps with one row per code. A duplicated COD_DANE or cause code would make the left merge duplicate records; that case is not modelled.
- Charts.TopDepartmentsMaximal: `nlargest(keep='first')` breaks ties at the tenth place by group order. The model's sort is one stable choice, but the lemmas only prove that no omitted department has strictly more deaths. Tie order in every `sort_values(...).head(n)` is likewise left open.
- What Dash does when a callback raises (the figure already shown stays in place) is not modelled: the callbacks return an `Err` result instead.
- Callbacks.UpdateViolentCitiesChartAsWritten: the codes collected by the loop are computed and then unused, because the call raises before it can use them.
- COD_DANE, MES and SEXO are assumed present in every record: they are plain integers, so a NaN in them is not modelled. In the source, `groupby('MES')` would drop a NaN month, `SEXO.map` would give a NaN gender, and the merge would leave a NaN COD_DANE unmatched. The other columns the core reads are optional.
- DataLoader.ViolentCitiesFor: the four-argument pipeline the callback calls does not exist, so its meaning is a reading: the X95 prefix test AND an exact match on a selected code. Under this reading a selected code outside X95 (such as the "X994" of the format example at callbacks.py:187) ranks nothing, as DataLoader.ViolentCitiesForOtherCodes states. Other readings (the selected codes replacing the X95 test) are not modelled.
- Integer widths: counts, months and ages are unbounded integers. Nothing in the core wraps around.

## Findings

| source | as written | input that shows it | evidently intended | confidence | as-written member | corrected member |
|---|---|---|---|---|---|---|
| src/callbacks/callbacks.py:192 | `process_data_for_violent_cities(filtered_df, df_divipola, df_codes, selected_codes)` calls a function defined with two parameters (src/data_processing/data_loader.py:85), so every callback run raises TypeError. The chart keeps its unfiltered startup ranking, built with the valid two-argument call (src/app.py:30,39), and never reacts to the gender or type filters. The type dropdown also has no options in the running app: src/app.py:90-102 passes no `violent_types`, which defaults to None (src/layouts/layout.py:293) | any input: for example, no gender and no type selected | rank the X95 firearm homicides of the gender-filtered records, narrowed to the selected cause codes when any are selected (one reading of the missing four-argument pipeline; see DataLoader.ViolentCitiesFor under Left out) | not executed | Callbacks.UpdateViolentCitiesChartAsWritten | Callbacks.UpdateViolentCitiesChart (with DataLoader.ViolentCitiesFor) |
