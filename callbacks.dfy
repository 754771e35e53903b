/** The filter and translation logic inside the dashboard callbacks of
    src/callbacks/callbacks.py. Each callback copies the record table, narrows it one
    dropdown at a time (a dropdown with no selection is no filter), translates
    display labels back into raw codes through inverted lookup tables, and hands the
    result to one of the aggregation pipelines. */
module Callbacks {
  import opened Collections
  import opened Grouping
  import Utils
  import opened DataLoader

  /** A dropdown's value: None before anything was chosen. */
  type Selection<T> = Option<seq<T>>

  /** `if selected and len(selected) > 0`: None and [] both select nothing. */
  predicate Active<T>(sel: Selection<T>) {
    sel.Some? && |sel.value| > 0
  }

  // ---------------------------------------------------------------------
  // Label to code translation

  /** `[{v: k for k, v in d.items()}[label] for label in labels]`: raises KeyError at
      the first label that is no value of d. */
  function ToCodes<K>(d: Dict<K, string>, labels: seq<string>): (r: Result<seq<K>>)
    ensures r.Ok? <==> forall i :: 0 <= i < |labels| ==> InverseLookup(d, labels[i]).Some?
    ensures r.Ok? ==> (
              && |r.value| == |labels|
              && forall i :: 0 <= i < |labels| ==> InverseLookup(d, labels[i]) == Some(r.value[i]))
    ensures r.Err? ==> exists i :: FirstUnresolved(d, labels, i) && r.error == KeyError(labels[i])
  {
    if labels == [] then Ok([])
    else match InverseLookup(d, labels[0])
      case None =>
        assert FirstUnresolved(d, labels, 0);
        Err(KeyError(labels[0]))
      case Some(k) =>
        var rest := ToCodes(d, labels[1..]);
        assert forall i :: 1 <= i < |labels| ==> labels[1..][i - 1] == labels[i];
        if rest.Err? then
          UnresolvedShift(d, labels, rest.error);
          Err(rest.error)
        else
          Ok([k] + rest.value)
  }

  lemma UnresolvedShift<K>(d: Dict<K, string>, labels: seq<string>, e: Error)
    requires labels != [] && InverseLookup(d, labels[0]).Some?
    requires exists j :: FirstUnresolved(d, labels[1..], j) && e == KeyError(labels[1..][j])
    ensures exists i :: FirstUnresolved(d, labels, i) && e == KeyError(labels[i])
  {
    var j :| FirstUnresolved(d, labels[1..], j) && e == KeyError(labels[1..][j]);
    forall i | 0 <= i < j + 1 ensures InverseLookup(d, labels[i]).Some? {
      if i > 0 { assert labels[i] == labels[1..][i - 1]; }
    }
    assert FirstUnresolved(d, labels, j + 1);
  }

  /** labels[i] is the first label without a code. */
  ghost predicate FirstUnresolved<K>(d: Dict<K, string>, labels: seq<string>, i: int) {
    && 0 <= i < |labels|
    && InverseLookup(d, labels[i]).None?
    && forall j :: 0 <= j < i ==> InverseLookup(d, labels[j]).Some?
  }

  /** For a table with unique keys and distinct values, a code is among the
      translations exactly when the table maps it to a selected label. */
  lemma ResolvedCodes<K>(d: Dict<K, string>, labels: seq<string>, codes: seq<K>)
    requires UniqueKeys(d) && DistinctValues(d)
    requires ToCodes(d, labels) == Ok(codes)
    ensures forall c :: c in codes <==> Lookup(d, c).Some? && Lookup(d, c).value in labels
  {
    forall c ensures c in codes <==> Lookup(d, c).Some? && Lookup(d, c).value in labels {
      if c in codes {
        var i :| 0 <= i < |codes| && codes[i] == c;
        InverseThenLookup(d, labels[i]);
      }
      if Lookup(d, c).Some? && Lookup(d, c).value in labels {
        var i :| 0 <= i < |labels| && labels[i] == Lookup(d, c).value;
        LookupThenInverse(d, c);
        assert codes[i] == c;
      }
    }
  }

  /** A label has a code in an inverted table exactly when some entry shows it. */
  lemma UnresolvedLabel<K>(d: Dict<K, string>, name: string)
    requires UniqueKeys(d)
    ensures InverseLookup(d, name).None? <==> forall k :: Lookup(d, k) != Some(name)
  {
    if InverseLookup(d, name).Some? {
      InverseThenLookup(d, name);
    } else {
      forall k ensures Lookup(d, k) != Some(name) {
        if Lookup(d, k).Some? {
          var i :| 0 <= i < |d| && d[i].0 == k;
          LookupAt(d, i);
        }
      }
    }
  }

  /** The gender table of the application has unique codes and distinct labels. */
  lemma GenderMappingWellFormed()
    ensures UniqueKeys(GENDER_MAPPING) && DistinctValues(GENDER_MAPPING)
  {
    assert GENDER_MAPPING[0] == (1, "Masculino") && GENDER_MAPPING[1] == (2, "Femenino");
    assert GENDER_MAPPING[2] == (3, "Indeterminado");
  }

  /** {"Masculino"} translates to the code list [1] and nothing else. */
  lemma GenderTranslationExample(labels: seq<string>)
    requires labels == ["Masculino"]
    ensures ToCodes(GENDER_MAPPING, labels) == Ok([1])
  {
    assert InverseLookup(GENDER_MAPPING, labels[0]) == Some(1);
    assert labels[1..] == [];
    assert ToCodes(GENDER_MAPPING, labels[1..]) == Ok([]);
    assert [1] + [] == [1];
  }

  // ---------------------------------------------------------------------
  // The single-dropdown filters

  predicate MannerIn(manners: seq<string>, r: Record) {
    r.maneraMuerte.Some? && r.maneraMuerte.value in manners
  }

  /** The records a month selection means: those whose MES has a selected name. */
  predicate MonthSelected(months: seq<string>, r: Record) {
    Utils.MonthName(r.mes).Some? && Utils.MonthName(r.mes).value in months
  }

  /** The records a gender selection means: those whose SEXO has a selected label. */
  predicate GenderSelected(genders: Dict<int, string>, selected: seq<string>, r: Record) {
    Lookup(genders, r.sexo).Some? && Lookup(genders, r.sexo).value in selected
  }

  predicate DepartmentIn(div: DivisionTable, depts: seq<string>, r: Record) {
    Department(div, r).Some? && Department(div, r).value in depts
  }

  /** `filtered_df[filtered_df['MANERA_MUERTE'].isin(selected_manners)]`. */
  function FilterManners(records: seq<Record>, manners: Selection<string>): seq<Record> {
    if Active(manners) then Keep(records, (r: Record) => MannerIn(manners.value, r)) else records
  }

  /** The month filter: names become numbers through the inverse of MONTH_NAMES. */
  function FilterMonths(records: seq<Record>, months: Selection<string>): Result<seq<Record>> {
    if !Active(months) then Ok(records)
    else
      var nums :- ToCodes(Utils.MONTH_NAMES, months.value);
      Ok(WithMonths(records, nums))
  }

  function WithMonths(records: seq<Record>, nums: seq<int>): seq<Record> {
    Keep(records, (r: Record) => r.mes in nums)
  }

  /** The gender filter: labels become SEXO codes through the inverse of the table. */
  function FilterGenders(records: seq<Record>, genders: Dict<int, string>, selected: Selection<string>): Result<seq<Record>> {
    if !Active(selected) then Ok(records)
    else
      var codes :- ToCodes(genders, selected.value);
      Ok(WithGenders(records, codes))
  }

  function WithGenders(records: seq<Record>, codes: seq<int>): seq<Record> {
    Keep(records, (r: Record) => r.sexo in codes)
  }

  /** The department filter: a left merge on COD_DANE, then `DEPARTAMENTO.isin`. */
  function FilterDepartments(records: seq<Record>, div: DivisionTable, depts: Selection<string>): seq<Record> {
    if Active(depts) then Keep(records, (r: Record) => DepartmentIn(div, depts.value, r)) else records
  }

  /** The records a manner selection lets through, "all" when none is selected. */
  predicate MannerAdmits(manners: Selection<string>, r: Record) {
    Active(manners) ==> MannerIn(manners.value, r)
  }

  predicate MonthAdmits(months: Selection<string>, r: Record) {
    Active(months) ==> MonthSelected(months.value, r)
  }

  predicate GenderAdmits(genders: Dict<int, string>, selected: Selection<string>, r: Record) {
    Active(selected) ==> GenderSelected(genders, selected.value, r)
  }

  predicate DepartmentAdmits(div: DivisionTable, depts: Selection<string>, r: Record) {
    Active(depts) ==> DepartmentIn(div, depts.value, r)
  }

  /** Every month name resolves (the month filter cannot fail). */
  predicate MonthsResolve(months: Selection<string>) {
    Active(months) ==> forall i :: 0 <= i < |months.value| ==> InverseLookup(Utils.MONTH_NAMES, months.value[i]).Some?
  }

  predicate GendersResolve(genders: Dict<int, string>, selected: Selection<string>) {
    Active(selected) ==> forall i :: 0 <= i < |selected.value| ==> InverseLookup(genders, selected.value[i]).Some?
  }

  /** An inactive selection leaves the records untouched in every dimension. */
  lemma NoSelectionNoFilter(records: seq<Record>, div: DivisionTable, genders: Dict<int, string>, sel: Selection<string>)
    requires !Active(sel)
    ensures FilterManners(records, sel) == records
    ensures FilterMonths(records, sel) == Ok(records)
    ensures FilterGenders(records, genders, sel) == Ok(records)
    ensures FilterDepartments(records, div, sel) == records
  {
  }

  /** The manner filter keeps exactly the records with a selected MANERA_MUERTE, each as
      often as in the input and in input order. */
  lemma FilterMannersSpec(records: seq<Record>, manners: Selection<string>)
    ensures FilterManners(records, manners) == Keep(records, (r: Record) => MannerAdmits(manners, r))
    ensures IsSubsequence(FilterManners(records, manners), records)
    ensures forall x :: multiset(FilterManners(records, manners))[x] ==
              if MannerAdmits(manners, x) then multiset(records)[x] else 0
  {
    if Active(manners) {
      KeepSame(records, (r: Record) => MannerIn(manners.value, r), (r: Record) => MannerAdmits(manners, r));
    } else {
      KeepAll(records, (r: Record) => MannerAdmits(manners, r));
    }
    KeepIsSubsequence(records, (r: Record) => MannerAdmits(manners, r));
    KeepCount(records, (r: Record) => MannerAdmits(manners, r));
  }

  /** Filtering on the translated month numbers keeps exactly the records whose MES
      has a selected name. */
  lemma WithMonthsSpec(records: seq<Record>, months: seq<string>, nums: seq<int>)
    requires ToCodes(Utils.MONTH_NAMES, months) == Ok(nums)
    ensures WithMonths(records, nums) == Keep(records, (r: Record) => MonthSelected(months, r))
  {
    Utils.MonthNamesWellFormed();
    ResolvedCodes(Utils.MONTH_NAMES, months, nums);
    KeepSame(records, (r: Record) => r.mes in nums, (r: Record) => MonthSelected(months, r));
  }

  /** Filtering on the translated SEXO codes keeps exactly the records whose SEXO has a
      selected label. */
  lemma WithGendersSpec(records: seq<Record>, genders: Dict<int, string>, selected: seq<string>, codes: seq<int>)
    requires UniqueKeys(genders) && DistinctValues(genders)
    requires ToCodes(genders, selected) == Ok(codes)
    ensures WithGenders(records, codes) == Keep(records, (r: Record) => GenderSelected(genders, selected, r))
  {
    ResolvedCodes(genders, selected, codes);
    KeepSame(records, (r: Record) => r.sexo in codes, (r: Record) => GenderSelected(genders, selected, r));
  }

  lemma UnknownMonth(name: string)
    requires InverseLookup(Utils.MONTH_NAMES, name).None?
    ensures forall m :: Utils.MonthName(m) != Some(name)
  {
    Utils.MonthNamesWellFormed();
    UnresolvedLabel(Utils.MONTH_NAMES, name);
    forall m ensures Utils.MonthName(m) != Some(name) {
      assert Utils.MonthName(m) == Lookup(Utils.MONTH_NAMES, m);
    }
  }

  /** The month filter fails, with the KeyError of the first unknown name, exactly when
      some selected name is no month name; otherwise it keeps exactly the records whose
      MES is named in the selection. */
  lemma FilterMonthsSpec(records: seq<Record>, months: Selection<string>)
    ensures FilterMonths(records, months).Ok? <==> MonthsResolve(months)
    ensures FilterMonths(records, months).Err? ==>
              exists i :: FirstUnresolved(Utils.MONTH_NAMES, months.value, i) &&
                FilterMonths(records, months).error == KeyError(months.value[i]) &&
                forall m :: Utils.MonthName(m) != Some(months.value[i])
    ensures FilterMonths(records, months).Ok? ==>
              FilterMonths(records, months).value == Keep(records, (r: Record) => MonthAdmits(months, r))
  {
    if Active(months) {
      var t := ToCodes(Utils.MONTH_NAMES, months.value);
      if t.Ok? {
        WithMonthsSpec(records, months.value, t.value);
        KeepSame(records, (r: Record) => MonthSelected(months.value, r), (r: Record) => MonthAdmits(months, r));
      } else {
        assert FilterMonths(records, months) == Err(t.error);
        var i :| FirstUnresolved(Utils.MONTH_NAMES, months.value, i) && t.error == KeyError(months.value[i]);
        UnknownMonth(months.value[i]);
        assert FirstUnresolved(Utils.MONTH_NAMES, months.value, i) &&
               FilterMonths(records, months).error == KeyError(months.value[i]) &&
               forall m :: Utils.MonthName(m) != Some(months.value[i]);
      }
    } else {
      KeepAll(records, (r: Record) => MonthAdmits(months, r));
    }
  }

  /** The gender filter, for a table with unique codes and distinct labels: it fails,
      with the KeyError of the first unknown label, exactly when some selected label is
      not in the table; otherwise it keeps exactly the records whose SEXO has a
      selected label. */
  lemma FilterGendersSpec(records: seq<Record>, genders: Dict<int, string>, selected: Selection<string>)
    requires UniqueKeys(genders) && DistinctValues(genders)
    ensures FilterGenders(records, genders, selected).Ok? <==> GendersResolve(genders, selected)
    ensures FilterGenders(records, genders, selected).Err? ==>
              exists i :: FirstUnresolved(genders, selected.value, i) &&
                FilterGenders(records, genders, selected).error == KeyError(selected.value[i]) &&
                forall c :: Lookup(genders, c) != Some(selected.value[i])
    ensures FilterGenders(records, genders, selected).Ok? ==>
              FilterGenders(records, genders, selected).value == Keep(records, (r: Record) => GenderAdmits(genders, selected, r))
  {
    if Active(selected) {
      var t := ToCodes(genders, selected.value);
      if t.Ok? {
        WithGendersSpec(records, genders, selected.value, t.value);
        KeepSame(records, (r: Record) => GenderSelected(genders, selected.value, r), (r: Record) => GenderAdmits(genders, selected, r));
      } else {
        assert FilterGenders(records, genders, selected) == Err(t.error);
        var i :| FirstUnresolved(genders, selected.value, i) && t.error == KeyError(selected.value[i]);
        UnresolvedLabel(genders, selected.value[i]);
        assert FirstUnresolved(genders, selected.value, i) &&
               FilterGenders(records, genders, selected).error == KeyError(selected.value[i]) &&
               forall c :: Lookup(genders, c) != Some(selected.value[i]);
      }
    } else {
      KeepAll(records, (r: Record) => GenderAdmits(genders, selected, r));
    }
  }

  /** The department filter keeps exactly the records that join to a selected
      department; a record whose COD_DANE has no division entry never passes. */
  lemma FilterDepartmentsSpec(records: seq<Record>, div: DivisionTable, depts: Selection<string>)
    ensures FilterDepartments(records, div, depts) == Keep(records, (r: Record) => DepartmentAdmits(div, depts, r))
    ensures Active(depts) ==> forall i :: 0 <= i < |FilterDepartments(records, div, depts)| ==>
              FilterDepartments(records, div, depts)[i].codDane in div
  {
    if Active(depts) {
      KeepSame(records, (r: Record) => DepartmentIn(div, depts.value, r), (r: Record) => DepartmentAdmits(div, depts, r));
      var kept := FilterDepartments(records, div, depts);
      forall i | 0 <= i < |kept| ensures kept[i].codDane in div {
        assert kept[i] in kept;
      }
    } else {
      KeepAll(records, (r: Record) => DepartmentAdmits(div, depts, r));
    }
  }

  // ---------------------------------------------------------------------
  // The callbacks

  /** update_map: manners, then months, then genders, then the department map. */
  function UpdateMap(records: seq<Record>, div: DivisionTable, genders: Dict<int, string>,
                     manners: Selection<string>, months: Selection<string>, selectedGenders: Selection<string>): Result<seq<DeptRow>>
  {
    var byManner := FilterManners(records, manners);
    var byMonth :- FilterMonths(byManner, months);
    var byGender :- FilterGenders(byMonth, genders, selectedGenders);
    Ok(DepartmentMap(byGender, div))
  }

  predicate MapAdmits(genders: Dict<int, string>, manners: Selection<string>, months: Selection<string>,
                      selectedGenders: Selection<string>, r: Record) {
    MannerAdmits(manners, r) && MonthAdmits(months, r) && GenderAdmits(genders, selectedGenders, r)
  }

  /** The sequential filters of update_map are the conjunction of the active ones: the
      map is the department map of exactly the records every selection admits. It
      fails exactly when a month name or a gender label does not resolve. */
  lemma UpdateMapSpec(records: seq<Record>, div: DivisionTable, genders: Dict<int, string>,
                      manners: Selection<string>, months: Selection<string>, selectedGenders: Selection<string>)
    requires UniqueKeys(genders) && DistinctValues(genders)
    ensures UpdateMap(records, div, genders, manners, months, selectedGenders).Ok? <==>
              MonthsResolve(months) && GendersResolve(genders, selectedGenders)
    ensures UpdateMap(records, div, genders, manners, months, selectedGenders).Ok? ==>
              UpdateMap(records, div, genders, manners, months, selectedGenders).value ==
                DepartmentMap(Keep(records, (r: Record) => MapAdmits(genders, manners, months, selectedGenders, r)), div)
  {
    var byManner := FilterManners(records, manners);
    FilterMannersSpec(records, manners);
    FilterMonthsSpec(byManner, months);
    if MonthsResolve(months) {
      var byMonth := FilterMonths(byManner, months).value;
      KeepKeep(records, (r: Record) => MannerAdmits(manners, r), (r: Record) => MonthAdmits(months, r),
               (r: Record) => MannerAdmits(manners, r) && MonthAdmits(months, r));
      FilterGendersSpec(byMonth, genders, selectedGenders);
      KeepKeep(records, (r: Record) => MannerAdmits(manners, r) && MonthAdmits(months, r),
               (r: Record) => GenderAdmits(genders, selectedGenders, r),
               (r: Record) => MapAdmits(genders, manners, months, selectedGenders, r));
    }
  }

  /** update_monthly_chart: departments, then genders, then the monthly series. */
  function UpdateMonthlyChart(records: seq<Record>, div: DivisionTable, genders: Dict<int, string>,
                              depts: Selection<string>, selectedGenders: Selection<string>): Result<seq<MonthRow>>
  {
    var byDept := FilterDepartments(records, div, depts);
    var byGender :- FilterGenders(byDept, genders, selectedGenders);
    Ok(MonthlyDeaths(byGender))
  }

  /** update_age_histogram: departments, then genders, then the age histogram. */
  function UpdateAgeHistogram(records: seq<Record>, div: DivisionTable, genders: Dict<int, string>,
                              depts: Selection<string>, selectedGenders: Selection<string>): Result<seq<AgeRow>>
  {
    var byDept := FilterDepartments(records, div, depts);
    var byGender :- FilterGenders(byDept, genders, selectedGenders);
    Ok(AgeHistogram(byGender))
  }

  predicate DeptGenderAdmits(div: DivisionTable, genders: Dict<int, string>, depts: Selection<string>,
                             selectedGenders: Selection<string>, r: Record) {
    DepartmentAdmits(div, depts, r) && GenderAdmits(genders, selectedGenders, r)
  }

  /** The department-then-gender narrowing shared by the monthly and age callbacks is
      the conjunction of the two selections; it fails exactly when a gender label does
      not resolve. */
  lemma DeptGenderFilterSpec(records: seq<Record>, div: DivisionTable, genders: Dict<int, string>,
                             depts: Selection<string>, selectedGenders: Selection<string>)
    requires UniqueKeys(genders) && DistinctValues(genders)
    ensures FilterGenders(FilterDepartments(records, div, depts), genders, selectedGenders).Ok? <==>
              GendersResolve(genders, selectedGenders)
    ensures FilterGenders(FilterDepartments(records, div, depts), genders, selectedGenders).Ok? ==>
              FilterGenders(FilterDepartments(records, div, depts), genders, selectedGenders).value ==
                Keep(records, (r: Record) => DeptGenderAdmits(div, genders, depts, selectedGenders, r))
  {
    var byDept := FilterDepartments(records, div, depts);
    FilterDepartmentsSpec(records, div, depts);
    FilterGendersSpec(byDept, genders, selectedGenders);
    KeepKeep(records, (r: Record) => DepartmentAdmits(div, depts, r), (r: Record) => GenderAdmits(genders, selectedGenders, r),
             (r: Record) => DeptGenderAdmits(div, genders, depts, selectedGenders, r));
  }

  /** The monthly chart is the monthly series of exactly the admitted records. */
  lemma UpdateMonthlyChartSpec(records: seq<Record>, div: DivisionTable, genders: Dict<int, string>,
                               depts: Selection<string>, selectedGenders: Selection<string>)
    requires UniqueKeys(genders) && DistinctValues(genders)
    ensures UpdateMonthlyChart(records, div, genders, depts, selectedGenders).Ok? <==> GendersResolve(genders, selectedGenders)
    ensures UpdateMonthlyChart(records, div, genders, depts, selectedGenders).Ok? ==>
              UpdateMonthlyChart(records, div, genders, depts, selectedGenders).value ==
                MonthlyDeaths(Keep(records, (r: Record) => DeptGenderAdmits(div, genders, depts, selectedGenders, r)))
  {
    DeptGenderFilterSpec(records, div, genders, depts, selectedGenders);
  }

  /** The age histogram is the histogram of exactly the admitted records. */
  lemma UpdateAgeHistogramSpec(records: seq<Record>, div: DivisionTable, genders: Dict<int, string>,
                               depts: Selection<string>, selectedGenders: Selection<string>)
    requires UniqueKeys(genders) && DistinctValues(genders)
    ensures UpdateAgeHistogram(records, div, genders, depts, selectedGenders).Ok? <==> GendersResolve(genders, selectedGenders)
    ensures UpdateAgeHistogram(records, div, genders, depts, selectedGenders).Ok? ==>
              UpdateAgeHistogram(records, div, genders, depts, selectedGenders).value ==
                AgeHistogram(Keep(records, (r: Record) => DeptGenderAdmits(div, genders, depts, selectedGenders, r)))
  {
    DeptGenderFilterSpec(records, div, genders, depts, selectedGenders);
  }

  /** update_lowest_mortality_chart: genders, then the lowest-mortality ranking. */
  function UpdateLowestMortalityChart(records: seq<Record>, div: DivisionTable, genders: Dict<int, string>,
                                      selectedGenders: Selection<string>): Result<seq<LowRow>>
  {
    var byGender :- FilterGenders(records, genders, selectedGenders);
    Ok(LowestMortalityCities(byGender, div))
  }

  lemma UpdateLowestMortalityChartSpec(records: seq<Record>, div: DivisionTable, genders: Dict<int, string>,
                                       selectedGenders: Selection<string>)
    requires UniqueKeys(genders) && DistinctValues(genders)
    ensures UpdateLowestMortalityChart(records, div, genders, selectedGenders).Ok? <==> GendersResolve(genders, selectedGenders)
    ensures UpdateLowestMortalityChart(records, div, genders, selectedGenders).Ok? ==>
              UpdateLowestMortalityChart(records, div, genders, selectedGenders).value ==
                LowestMortalityCities(Keep(records, (r: Record) => GenderAdmits(genders, selectedGenders, r)), div)
  {
    FilterGendersSpec(records, genders, selectedGenders);
  }

  /** update_gender_dept_chart: manners, then months, then the gender x department table. */
  function UpdateGenderDeptChart(records: seq<Record>, div: DivisionTable,
                                 manners: Selection<string>, months: Selection<string>): Result<seq<GenderDeptRow>>
  {
    var byManner := FilterManners(records, manners);
    var byMonth :- FilterMonths(byManner, months);
    Ok(GenderDepartment(byMonth, div))
  }

  lemma UpdateGenderDeptChartSpec(records: seq<Record>, div: DivisionTable,
                                  manners: Selection<string>, months: Selection<string>)
    ensures UpdateGenderDeptChart(records, div, manners, months).Ok? <==> MonthsResolve(months)
    ensures UpdateGenderDeptChart(records, div, manners, months).Ok? ==>
              UpdateGenderDeptChart(records, div, manners, months).value ==
                GenderDepartment(Keep(records, (r: Record) => MannerAdmits(manners, r) && MonthAdmits(months, r)), div)
  {
    var byManner := FilterManners(records, manners);
    FilterMannersSpec(records, manners);
    FilterMonthsSpec(byManner, months);
    KeepKeep(records, (r: Record) => MannerAdmits(manners, r), (r: Record) => MonthAdmits(months, r),
             (r: Record) => MannerAdmits(manners, r) && MonthAdmits(months, r));
  }

  // ---------------------------------------------------------------------
  // Cause codes of the violent-cities callback

  /** The separator " - " starts at position i of s. */
  predicate SeparatorAt(s: string, i: int) {
    0 <= i && i + 3 <= |s| && s[i] == ' ' && s[i + 1] == '-' && s[i + 2] == ' '
  }

  lemma SeparatorShift(s: string)
    requires s != []
    ensures forall i :: 0 <= i ==> (SeparatorAt(s[1..], i) <==> SeparatorAt(s, i + 1))
  {
    forall i | 0 <= i ensures SeparatorAt(s[1..], i) <==> SeparatorAt(s, i + 1) {
      if i + 3 <= |s[1..]| {
        assert s[1..][i] == s[i + 1] && s[1..][i + 1] == s[i + 2] && s[1..][i + 2] == s[i + 3];
      }
    }
  }

  /** `desc.split(' - ')[0]`: the text before the first " - ", or the whole string
      when there is none. */
  function CauseCode(desc: string): (code: string)
    ensures IsCodeOf(desc, code)
  {
    if |desc| < 3 then desc
    else if SeparatorAt(desc, 0) then ""
    else
      var rest := CauseCode(desc[1..]);
      CodeStep(desc, rest);
      [desc[0]] + rest
  }

  /** code is a prefix of desc with no separator starting inside it, followed by a
      separator unless it is all of desc. */
  ghost predicate IsCodeOf(desc: string, code: string) {
    && |code| <= |desc| && code == desc[..|code|]
    && (forall i :: 0 <= i < |code| ==> !SeparatorAt(desc, i))
    && (|code| < |desc| ==> SeparatorAt(desc, |code|))
  }

  lemma CodeStep(desc: string, rest: string)
    requires |desc| >= 3 && !SeparatorAt(desc, 0)
    requires IsCodeOf(desc[1..], rest)
    ensures IsCodeOf(desc, [desc[0]] + rest)
  {
    SeparatorShift(desc);
    var code := [desc[0]] + rest;
    assert code == desc[..|code|];
    forall i | 0 <= i < |code| ensures !SeparatorAt(desc, i) {
      if i > 0 { assert !SeparatorAt(desc[1..], i - 1); }
    }
    if |code| < |desc| {
      assert SeparatorAt(desc[1..], |rest|);
    }
  }

  /** A description without the separator is its own code: neither dropped nor an error. */
  lemma CauseCodeWithoutSeparator(desc: string)
    requires forall i :: !SeparatorAt(desc, i)
    ensures CauseCode(desc) == desc
  {
    var code := CauseCode(desc);
    assert !SeparatorAt(desc, |code|);
  }

  /** Every description of the form "X954 - ..." has the code "X954", whatever follows
      the first separator, further separators included. */
  lemma CauseCodeExample(desc: string, rest: string)
    requires desc == "X954 - " + rest
    ensures CauseCode(desc) == "X954"
  {
    var code := CauseCode(desc);
    assert desc[0] == 'X' && desc[1] == '9' && desc[2] == '5' && desc[3] == '4';
    assert desc[4] == ' ' && desc[5] == '-' && desc[6] == ' ';
    assert SeparatorAt(desc, 4);
    assert |code| == 4;
    assert desc[..4] == "X954";
  }

  /** The codes the callback collects. */
  function CodesOf(types: Selection<string>): seq<string> {
    if Active(types) then MapSeq(types.value, CauseCode) else []
  }

  /** The loop that collects `desc.split(' - ')[0]` for every selected description. */
  method SelectedCodes(types: Selection<string>) returns (codes: seq<string>)
    ensures !Active(types) ==> codes == []
    ensures Active(types) ==> (
              && |codes| == |types.value|
              && forall i :: 0 <= i < |types.value| ==> codes[i] == CauseCode(types.value[i]))
    ensures codes == CodesOf(types)
  {
    codes := [];
    if Active(types) {
      var descs := types.value;
      for k := 0 to |descs|
        invariant |codes| == k
        invariant forall i :: 0 <= i < k ==> codes[i] == CauseCode(descs[i])
      {
        codes := codes + [CauseCode(descs[k])];
      }
    }
  }

  /** What Python raises when a two-parameter function is called with four arguments. */
  const ARITY_MESSAGE: string := "process_data_for_violent_cities() takes 2 positional arguments but 4 were given"

  /** update_violent_cities_chart as written: the gender filter (which may raise
      KeyError), the code loop, then a four-argument call of the two-parameter
      pipeline, which raises TypeError. No input produces a chart. */
  method UpdateViolentCitiesChartAsWritten(records: seq<Record>, div: DivisionTable, genders: Dict<int, string>,
                                           types: Selection<string>, selectedGenders: Selection<string>)
    returns (r: Result<seq<CityRow>>)
    ensures r.Err?
    ensures FilterGenders(records, genders, selectedGenders).Err? ==> r == Err(FilterGenders(records, genders, selectedGenders).error)
    ensures FilterGenders(records, genders, selectedGenders).Ok? ==> r == Err(TypeError(ARITY_MESSAGE))
  {
    var byGender := FilterGenders(records, genders, selectedGenders);
    if byGender.Err? {
      return Err(byGender.error);
    }
    var codes := SelectedCodes(types);
    r := Err(TypeError(ARITY_MESSAGE));
  }

  /** update_violent_cities_chart with the call it evidently intends: the selected
      codes narrow the X95 ranking. */
  method UpdateViolentCitiesChart(records: seq<Record>, div: DivisionTable, genders: Dict<int, string>,
                                  types: Selection<string>, selectedGenders: Selection<string>)
    returns (r: Result<seq<CityRow>>)
    ensures FilterGenders(records, genders, selectedGenders).Err? ==> r == Err(FilterGenders(records, genders, selectedGenders).error)
    ensures FilterGenders(records, genders, selectedGenders).Ok? ==>
              r == Ok(ViolentCitiesFor(FilterGenders(records, genders, selectedGenders).value, div, CodesOf(types)))
  {
    var byGender := FilterGenders(records, genders, selectedGenders);
    if byGender.Err? {
      return Err(byGender.error);
    }
    var codes := SelectedCodes(types);
    r := Ok(ViolentCitiesFor(byGender.value, div, codes));
  }

  /** With no type selected the corrected callback ranks the gender-filtered records
      with the two-argument pipeline; with types selected it ranks the X95 records
      whose code is one of the selected codes. */
  lemma ViolentCitiesCallbackSpec(records: seq<Record>, div: DivisionTable, genders: Dict<int, string>,
                                  types: Selection<string>, selectedGenders: Selection<string>)
    requires UniqueKeys(genders) && DistinctValues(genders) && GendersResolve(genders, selectedGenders)
    ensures var filtered := Keep(records, (r: Record) => GenderAdmits(genders, selectedGenders, r));
            && FilterGenders(records, genders, selectedGenders) == Ok(filtered)
            && (!Active(types) ==> ViolentCitiesFor(filtered, div, CodesOf(types)) == ViolentCities(filtered, div))
            && HomicideColumn(WithCodes(filtered, CodesOf(types)), div) ==
                 MunicipalityColumn(Keep(filtered, (r: Record) => SelectedFirearmHomicide(CodesOf(types), r)), div)
  {
    FilterGendersSpec(records, genders, selectedGenders);
    var filtered := Keep(records, (r: Record) => GenderAdmits(genders, selectedGenders, r));
    ViolentCitiesForSpec(filtered, div, CodesOf(types));
  }
}
