/** The seven aggregation pipelines of src/data_processing/data_loader.py: each a
    left join, a filter, a group-by count, a sort and a head / tail slice over the
    mortality records. Every pipeline works on values, so the caller's record
    table is never modified. */
module DataLoader {
  import opened Collections
  import opened Grouping
  import Utils

  /** One row of the mortality file; a missing cell (NaN) is None. */
  datatype Record = Record(
    codDane: int,                  // COD_DANE, the municipality code
    mes: int,                      // MES
    codMuerte: Option<string>,     // COD_MUERTE, the four-character cause code
    maneraMuerte: Option<string>,  // MANERA_MUERTE
    grupoEdad1: Option<int>,       // GRUPO_EDAD1
    sexo: int                      // SEXO
  )

  /** One row of the division table, keyed by its COD_DANE. */
  datatype Division = Division(codDepartamento: int, departamento: string, municipio: string)

  /** The division table as COD_DANE -> entry: each code occurs once. */
  type DivisionTable = map<int, Division>

  /** The cause table as four-character code -> description. A code whose description
      is missing behaves like a code that is absent, so it has no entry. */
  type CauseTable = map<string, string>

  /** DEPARTAMENTO after a left merge on COD_DANE. */
  function Department(div: DivisionTable, r: Record): Option<string> {
    if r.codDane in div then Some(div[r.codDane].departamento) else None
  }

  /** MUNICIPIO after a left merge on COD_DANE. */
  function Municipality(div: DivisionTable, r: Record): Option<string> {
    if r.codDane in div then Some(div[r.codDane].municipio) else None
  }

  function DepartmentColumn(records: seq<Record>, div: DivisionTable): seq<Option<string>> {
    MapSeq(records, (r: Record) => Department(div, r))
  }

  function MunicipalityColumn(records: seq<Record>, div: DivisionTable): seq<Option<string>> {
    MapSeq(records, (r: Record) => Municipality(div, r))
  }

  /** The number of keys of a column equal to k is the number of records whose key is k. */
  lemma {:induction false} OccurrencesOfColumn<K>(records: seq<Record>, f: Record -> Option<K>, k: K)
    ensures Occurrences(MapSeq(records, f), k) == |Keep(records, (r: Record) => f(r) == Some(k))|
  {
    if records != [] {
      OccurrencesOfColumn(records[1..], f, k);
      assert MapSeq(records, f)[1..] == MapSeq(records[1..], f);
    }
  }

  // ---------------------------------------------------------------------
  // process_data_for_department_map

  datatype DeptRow = DeptRow(departamento: string, totalDeaths: nat)

  function ToDeptRow(x: Group<string>): DeptRow { DeptRow(x.key, x.total) }

  function DepartmentMap(records: seq<Record>, div: DivisionTable): seq<DeptRow> {
    StrLessOrder();
    MapSeq(GroupCount(DepartmentColumn(records, div), StrLess), ToDeptRow)
  }

  function SumDeaths(rows: seq<DeptRow>): nat {
    if rows == [] then 0 else rows[0].totalDeaths + SumDeaths(rows[1..])
  }

  lemma {:induction false} SumDeathsOfGroups(g: seq<Group<string>>)
    ensures SumDeaths(MapSeq(g, ToDeptRow)) == SumTotals(g)
  {
    if g != [] {
      SumDeathsOfGroups(g[1..]);
      assert MapSeq(g, ToDeptRow)[1..] == MapSeq(g[1..], ToDeptRow);
    }
  }

  /** One row per distinct department that some record joins to, in ascending name
      order; TOTAL_DEATHS is the number of records joining to it; records whose
      COD_DANE has no division entry are in no row, so the counts add up to at most
      the number of records. */
  lemma DepartmentMapSpec(records: seq<Record>, div: DivisionTable)
    ensures var rows := DepartmentMap(records, div); var col := DepartmentColumn(records, div);
      && |rows| == |PresentKeys(col)|
      && (forall i, j :: 0 <= i < j < |rows| ==> StrLess(rows[i].departamento, rows[j].departamento))
      && (forall d :: d in PresentKeys(col) <==> exists i :: 0 <= i < |rows| && rows[i].departamento == d)
      && (forall i :: 0 <= i < |rows| ==> rows[i].totalDeaths == Occurrences(col, rows[i].departamento) > 0)
      && SumDeaths(rows) == NonNull(col) <= |records|
  {
    StrLessOrder();
    var col := DepartmentColumn(records, div);
    var g := GroupCount(col, StrLess);
    var rows := MapSeq(g, ToDeptRow);
    assert DepartmentMap(records, div) == rows;
    GroupCountSpec(col, StrLess);
    SumDeathsOfGroups(g);
    forall i, j | 0 <= i < j < |rows| ensures StrLess(rows[i].departamento, rows[j].departamento) {
      assert rows[i] == ToDeptRow(g[i]) && rows[j] == ToDeptRow(g[j]);
    }
    forall i | 0 <= i < |rows|
      ensures rows[i].departamento == g[i].key && rows[i].totalDeaths == Occurrences(col, rows[i].departamento) > 0
    {
      assert rows[i] == ToDeptRow(g[i]);
    }
    DeptRowsKeys(g, rows);
  }

  /** A department has a row exactly when it has a group. */
  lemma DeptRowsKeys(g: seq<Group<string>>, rows: seq<DeptRow>)
    requires |rows| == |g| && forall i :: 0 <= i < |rows| ==> rows[i].departamento == g[i].key
    ensures forall d :: d in KeysOf(g) <==> exists i :: 0 <= i < |rows| && rows[i].departamento == d
  {
    forall d ensures d in KeysOf(g) <==> exists i :: 0 <= i < |rows| && rows[i].departamento == d {
      KeysOfIndex(g, d);
    }
  }

  /** Two records join to department "X" through two codes, the third has no division
      entry: the map has the single row ("X", 2). */
  lemma DepartmentMapExample()
    ensures var div := map[1 := Division(10, "X", "M1"), 2 := Division(10, "X", "M2")];
            var records := [Record(1, 1, None, None, None, 1), Record(2, 1, None, None, None, 1),
                            Record(3, 1, None, None, None, 1)];
            DepartmentMap(records, div) == [DeptRow("X", 2)]
  {
    var div := map[1 := Division(10, "X", "M1"), 2 := Division(10, "X", "M2")];
    var records := [Record(1, 1, None, None, None, 1), Record(2, 1, None, None, None, 1),
                    Record(3, 1, None, None, None, 1)];
    var col := DepartmentColumn(records, div);
    assert col == [Some("X"), Some("X"), None];
    assert PresentKeys(col) == {"X"};
    assert Occurrences(col, "X") == 2;
    DepartmentMapSpec(records, div);
    var rows := DepartmentMap(records, div);
    assert |rows| == 1;
    assert rows[0].departamento in PresentKeys(col);
  }

  // ---------------------------------------------------------------------
  // process_data_for_monthly_deaths

  datatype MonthRow = MonthRow(mes: int, totalDeaths: nat, monthName: Option<string>)

  function MonthColumn(records: seq<Record>): seq<Option<int>> {
    MapSeq(records, (r: Record) => Some(r.mes))
  }

  function MonthKey(x: Group<int>): int { x.key }

  /** `deaths_by_month['MES'].map(MONTH_NAMES)`: NaN for a month outside the table. */
  function ToMonthRow(x: Group<int>): MonthRow { MonthRow(x.key, x.total, Utils.MonthName(x.key)) }

  /** `groupby('MES').size()` after the sort on MES. */
  function MonthGroups(records: seq<Record>): seq<Group<int>> {
    IntLessOrder();
    SortByRank(GroupCount(MonthColumn(records), IntLess), MonthKey)
  }

  function MonthlyDeaths(records: seq<Record>): seq<MonthRow> {
    MapSeq(MonthGroups(records), ToMonthRow)
  }

  /** Strictly ascending by MES whatever the input order, one row per distinct month,
      TOTAL_DEATHS the number of records of that month, MONTH_NAME = MONTH_NAMES[MES]. */
  lemma MonthlyDeathsSpec(records: seq<Record>)
    ensures var rows := MonthlyDeaths(records); var col := MonthColumn(records);
      && (forall i, j :: 0 <= i < j < |rows| ==> rows[i].mes < rows[j].mes)
      && (forall m :: m in PresentKeys(col) <==> exists i :: 0 <= i < |rows| && rows[i].mes == m)
      && (forall i :: 0 <= i < |rows| ==>
            && rows[i].totalDeaths == Occurrences(col, rows[i].mes) > 0
            && rows[i].monthName == Utils.MonthName(rows[i].mes))
  {
    var col := MonthColumn(records);
    var s := MonthGroups(records);
    var rows := MapSeq(s, ToMonthRow);
    assert MonthlyDeaths(records) == rows;
    MonthGroupsSpec(records);
    forall i, j | 0 <= i < j < |rows| ensures rows[i].mes < rows[j].mes {
      assert rows[i] == ToMonthRow(s[i]) && rows[j] == ToMonthRow(s[j]);
    }
    forall i | 0 <= i < |rows|
      ensures rows[i].totalDeaths == Occurrences(col, rows[i].mes) > 0 && rows[i].monthName == Utils.MonthName(rows[i].mes)
    {
      assert rows[i] == ToMonthRow(s[i]);
    }
    MonthRowsKeys(s, rows);
  }

  /** A month has a row exactly when it has a group. */
  lemma MonthRowsKeys(s: seq<Group<int>>, rows: seq<MonthRow>)
    requires |rows| == |s| && forall i :: 0 <= i < |rows| ==> rows[i].mes == s[i].key
    ensures forall m :: m in KeysOf(s) <==> exists i :: 0 <= i < |rows| && rows[i].mes == m
  {
    forall m ensures m in KeysOf(s) <==> exists i :: 0 <= i < |rows| && rows[i].mes == m {
      KeysOfIndex(s, m);
    }
  }


  lemma MonthGroupsSpec(records: seq<Record>)
    ensures forall i, j :: 0 <= i < j < |MonthGroups(records)| ==> MonthGroups(records)[i].key < MonthGroups(records)[j].key
    ensures KeysOf(MonthGroups(records)) == PresentKeys(MonthColumn(records))
    ensures forall i :: 0 <= i < |MonthGroups(records)| ==>
              MonthGroups(records)[i].total == Occurrences(MonthColumn(records), MonthGroups(records)[i].key) > 0
  {
    IntLessOrder();
    var col := MonthColumn(records);
    var g := GroupCount(col, IntLess);
    var s := MonthGroups(records);
    assert s == SortByRank(g, MonthKey);
    GroupCountSpec(col, IntLess);
    SortedByMonth(g, s);
    forall i | 0 <= i < |s| ensures s[i].total == Occurrences(col, s[i].key) > 0 {
      var j :| 0 <= j < |g| && g[j] == s[i];
    }
  }

  /** A permutation of distinct-keyed groups sorted by key is strictly ascending and
      has the same rows. */
  lemma SortedByMonth(g: seq<Group<int>>, s: seq<Group<int>>)
    requires DistinctBy(g, GroupKey)
    requires multiset(s) == multiset(g) && SortedByRank(s, MonthKey)
    ensures forall i, j :: 0 <= i < j < |s| ==> s[i].key < s[j].key
    ensures forall i :: 0 <= i < |s| ==> exists j :: 0 <= j < |g| && g[j] == s[i]
    ensures KeysOf(s) == KeysOf(g)
  {
    PermutationDistinct(g, s, GroupKey);
    forall i, j | 0 <= i < j < |s| ensures s[i].key < s[j].key {
      assert MonthKey(s[i]) <= MonthKey(s[j]);
      assert GroupKey(s[i]) != GroupKey(s[j]);
    }
    forall i | 0 <= i < |s| ensures exists j :: 0 <= j < |g| && g[j] == s[i] {
      assert s[i] in multiset(g);
    }
    forall m ensures m in KeysOf(s) <==> m in KeysOf(g) {
      KeysOfIndex(g, m);
      KeysOfIndex(s, m);
      if m in KeysOf(g) {
        var j :| 0 <= j < |g| && g[j].key == m;
        assert g[j] in multiset(s);
      }
      if m in KeysOf(s) {
        var i :| 0 <= i < |s| && s[i].key == m;
        var j :| 0 <= j < |g| && g[j] == s[i];
      }
    }
  }

  lemma {:induction false} AscendingFrom(rows: seq<MonthRow>, i: nat)
    requires forall a, b :: 0 <= a < b < |rows| ==> rows[a].mes < rows[b].mes
    requires i < |rows|
    ensures rows[i].mes >= rows[0].mes + i
  {
    if i > 0 { AscendingFrom(rows, i - 1); }
  }

  /** When every MES lies in 1..12 there are at most 12 rows, each with a month name. */
  lemma MonthlyDeathsAtMostTwelve(records: seq<Record>)
    requires forall i :: 0 <= i < |records| ==> 1 <= records[i].mes <= 12
    ensures |MonthlyDeaths(records)| <= 12
    ensures forall i :: 0 <= i < |MonthlyDeaths(records)| ==> MonthlyDeaths(records)[i].monthName.Some?
  {
    var rows := MonthlyDeaths(records);
    var col := MonthColumn(records);
    MonthlyDeathsSpec(records);
    forall i | 0 <= i < |rows| ensures 1 <= rows[i].mes <= 12 {
      PresentKeysIndex(col, rows[i].mes);
      Utils.MonthNamesKeys(rows[i].mes);
    }
    forall i | 0 <= i < |rows| ensures rows[i].monthName.Some? {
      Utils.MonthNamesKeys(rows[i].mes);
    }
    if |rows| > 12 {
      AscendingFrom(rows, 12);
    }
  }

  // ---------------------------------------------------------------------
  // process_data_for_violent_cities

  predicate StartsWith(s: string, prefix: string) {
    |prefix| <= |s| && s[..|prefix|] == prefix
  }

  /** `COD_MUERTE.str.startswith('X95', na=False)`. */
  predicate FirearmHomicide(r: Record) {
    r.codMuerte.Some? && StartsWith(r.codMuerte.value, "X95")
  }

  datatype CityRow = CityRow(municipio: string, homicides: nat)

  function ToCityRow(x: Group<string>): CityRow { CityRow(x.key, x.total) }

  function Cities(rows: seq<CityRow>): set<string> { set i | 0 <= i < |rows| :: rows[i].municipio }

  function ViolentCities(records: seq<Record>, div: DivisionTable): seq<CityRow> {
    StrLessOrder();
    var homicides := Keep(records, FirearmHomicide);
    var byCity := GroupCount(MunicipalityColumn(homicides, div), StrLess);
    MapSeq(Head(SortByRank(byCity, NegTotal), 5), ToCityRow)
  }

  function HomicideColumn(records: seq<Record>, div: DivisionTable): seq<Option<string>> {
    MunicipalityColumn(Keep(records, FirearmHomicide), div)
  }

  /** Only X95 records count; at most 5 rows, exactly min(5, number of such
      municipalities); distinct municipalities; non-increasing HOMICIDES, each the
      exact count; no omitted municipality has more homicides than a listed one.
      This holds for every order the unstable sort may give to ties. */
  lemma ViolentCitiesSpec(records: seq<Record>, div: DivisionTable)
    ensures var rows := ViolentCities(records, div); var col := HomicideColumn(records, div);
      && |rows| == Min(5, |PresentKeys(col)|)
      && (forall i, j :: 0 <= i < j < |rows| ==>
            rows[i].homicides >= rows[j].homicides && rows[i].municipio != rows[j].municipio)
      && (forall i :: 0 <= i < |rows| ==>
            rows[i].municipio in PresentKeys(col) && rows[i].homicides == Occurrences(col, rows[i].municipio) > 0)
      && (forall i, m :: 0 <= i < |rows| && m in PresentKeys(col) && m !in Cities(rows) ==>
            Occurrences(col, m) <= rows[i].homicides)
  {
    StrLessOrder();
    var col := HomicideColumn(records, div);
    var g := GroupCount(col, StrLess);
    var s := SortByRank(g, NegTotal);
    var h := Head(s, 5);
    var rows := MapSeq(h, ToCityRow);
    TopCounts(col, StrLess, s, NegTotal, 5);
    forall i, j | 0 <= i < j < |rows| ensures rows[i].homicides >= rows[j].homicides && rows[i].municipio != rows[j].municipio {
      assert NegTotal(h[i]) <= NegTotal(h[j]);
      assert GroupKey(h[i]) != GroupKey(h[j]);
    }
    forall j | 0 <= j < |h| ensures h[j].key in Cities(rows) {
      assert rows[j].municipio == h[j].key;
    }
    forall i, m | 0 <= i < |rows| && m in PresentKeys(col) && m !in Cities(rows)
      ensures Occurrences(col, m) <= rows[i].homicides
    {
      NotListed(h, Cities(rows), m);
      assert NegTotal(h[i]) <= NegTotal(Group(m, Occurrences(col, m)));
    }
  }

  /** The restriction the violent-cities callback asks for with its selected cause
      codes: none when no code is selected, otherwise COD_MUERTE must be one of them. */
  predicate CodeSelected(codes: seq<string>, r: Record) {
    codes == [] || (r.codMuerte.Some? && r.codMuerte.value in codes)
  }

  predicate SelectedFirearmHomicide(codes: seq<string>, r: Record) {
    FirearmHomicide(r) && CodeSelected(codes, r)
  }

  /** The four-argument violent-cities pipeline the callback calls: the X95 filter of
      the two-argument pipeline, narrowed to the selected codes. */
  function ViolentCitiesFor(records: seq<Record>, div: DivisionTable, codes: seq<string>): seq<CityRow> {
    ViolentCities(WithCodes(records, codes), div)
  }

  function WithCodes(records: seq<Record>, codes: seq<string>): seq<Record> {
    Keep(records, (r: Record) => CodeSelected(codes, r))
  }

  /** With no code selected it is the two-argument pipeline; otherwise it ranks the
      records that pass both the X95 test and the code selection, so ViolentCitiesSpec
      applies with that column. */
  lemma ViolentCitiesForSpec(records: seq<Record>, div: DivisionTable, codes: seq<string>)
    ensures codes == [] ==> ViolentCitiesFor(records, div, codes) == ViolentCities(records, div)
    ensures HomicideColumn(WithCodes(records, codes), div) ==
            MunicipalityColumn(Keep(records, (r: Record) => SelectedFirearmHomicide(codes, r)), div)
  {
    KeepKeep(records, (r: Record) => CodeSelected(codes, r), FirearmHomicide, (r: Record) => SelectedFirearmHomicide(codes, r));
    if codes == [] {
      KeepAll(records, (r: Record) => CodeSelected(codes, r));
    }
  }

  /** A selection made only of codes outside X95 leaves nothing to rank: the callback's
      own format example "X994 - ..." gives an empty chart under this reading. */
  lemma ViolentCitiesForOtherCodes(records: seq<Record>, div: DivisionTable, codes: seq<string>)
    requires codes != [] && forall c :: c in codes ==> !StartsWith(c, "X95")
    ensures ViolentCitiesFor(records, div, codes) == []
  {
    ViolentCitiesForSpec(records, div, codes);
    forall r: Record ensures !SelectedFirearmHomicide(codes, r) {
      if r.codMuerte.Some? && r.codMuerte.value in codes {
        assert !StartsWith(r.codMuerte.value, "X95");
      }
    }
    KeepNone(records, (r: Record) => SelectedFirearmHomicide(codes, r));
    assert PresentKeys(HomicideColumn(WithCodes(records, codes), div)) == {};
    ViolentCitiesSpec(WithCodes(records, codes), div);
  }

  lemma WithCodesExample(records: seq<Record>)
    requires |records| == 3
    requires records[0].codMuerte == Some("X95") && records[1].codMuerte == Some("X96")
    requires records[2].codMuerte == Some("X95")
    ensures WithCodes(records, ["X95"]) == [records[0], records[2]]
  {
    assert records[1..][1..] == [records[2]];
    assert WithCodes(records[1..][1..], ["X95"]) == [records[2]] by {
      assert records[1..][1..][1..] == [];
    }
    assert WithCodes(records[1..], ["X95"]) == [records[2]];
  }

  /** Three records of one municipality with causes X95, X96, X95 and the code
      selection ["X95"]: the code selection drops X96, the X95 prefix test keeps the
      other two, so the municipality has 2. */
  lemma ViolentCitiesExample(records: seq<Record>, div: DivisionTable)
    requires |records| == 3 && forall i :: 0 <= i < 3 ==> records[i].codDane == 1
    requires records[0].codMuerte == Some("X95") && records[1].codMuerte == Some("X96")
    requires records[2].codMuerte == Some("X95")
    requires 1 in div && div[1].municipio == "M1"
    ensures ViolentCitiesFor(records, div, ["X95"]) == [CityRow("M1", 2)]
  {
    var kept := WithCodes(records, ["X95"]);
    WithCodesExample(records);
    assert StartsWith("X95", "X95");
    assert kept[1..] == [records[2]];
    assert Keep(kept, FirearmHomicide) == kept;
    var col := HomicideColumn(kept, div);
    assert col == [Some("M1"), Some("M1")];
    assert col[1..] == [Some("M1")];
    assert PresentKeys(col[1..]) == {"M1"} by { assert col[1..][1..] == []; }
    assert PresentKeys(col) == {"M1"};
    assert Occurrences(col[1..], "M1") == 1 by { assert col[1..][1..] == []; }
    assert Occurrences(col, "M1") == 2;
    ViolentCitiesSpec(kept, div);
    var rows := ViolentCities(kept, div);
    assert |rows| == 1;
    assert rows[0].municipio in PresentKeys(col);
  }

  // ---------------------------------------------------------------------
  // process_data_for_lowest_mortality_cities

  datatype LowRow = LowRow(municipio: string, deaths: nat)

  function ToLowRow(x: Group<string>): LowRow { LowRow(x.key, x.total) }

  predicate HasDeaths(x: Group<string>) { x.total > 0 }

  function LowCities(rows: seq<LowRow>): set<string> { set i | 0 <= i < |rows| :: rows[i].municipio }

  function LowestMortalityCities(records: seq<Record>, div: DivisionTable): seq<LowRow> {
    StrLessOrder();
    var byCity := GroupCount(MunicipalityColumn(records, div), StrLess);
    var withDeaths := Keep(byCity, HasDeaths);
    MapSeq(Head(SortByRank(withDeaths, GroupTotal), 10), ToLowRow)
  }

  /** At most 10 rows, exactly min(10, number of municipalities with a death); every
      DEATHS > 0 and exact; non-decreasing; distinct municipalities. */
  lemma LowestMortalitySpec(records: seq<Record>, div: DivisionTable)
    ensures var rows := LowestMortalityCities(records, div); var col := MunicipalityColumn(records, div);
      && |rows| == Min(10, |PresentKeys(col)|)
      && (forall i, j :: 0 <= i < j < |rows| ==>
            rows[i].deaths <= rows[j].deaths && rows[i].municipio != rows[j].municipio)
      && (forall i :: 0 <= i < |rows| ==>
            rows[i].municipio in PresentKeys(col) && rows[i].deaths == Occurrences(col, rows[i].municipio) > 0)
  {
    StrLessOrder();
    var col := MunicipalityColumn(records, div);
    var g := GroupCount(col, StrLess);
    GroupCountSpec(col, StrLess);
    KeepAll(g, HasDeaths);
    var s := SortByRank(g, GroupTotal);
    var h := Head(s, 10);
    var rows := MapSeq(h, ToLowRow);
    TopCounts(col, StrLess, s, GroupTotal, 10);
    forall i, j | 0 <= i < j < |rows| ensures rows[i].deaths <= rows[j].deaths && rows[i].municipio != rows[j].municipio {
      assert GroupTotal(h[i]) <= GroupTotal(h[j]);
      assert GroupKey(h[i]) != GroupKey(h[j]);
    }
  }

  /** Every listed count is at most every omitted municipality's count. */
  lemma LowestMortalityOmitted(records: seq<Record>, div: DivisionTable)
    ensures var rows := LowestMortalityCities(records, div); var col := MunicipalityColumn(records, div);
      forall i, m :: 0 <= i < |rows| && m in PresentKeys(col) && m !in LowCities(rows) ==>
        rows[i].deaths <= Occurrences(col, m)
  {
    StrLessOrder();
    var col := MunicipalityColumn(records, div);
    var g := GroupCount(col, StrLess);
    GroupCountSpec(col, StrLess);
    KeepAll(g, HasDeaths);
    var s := SortByRank(g, GroupTotal);
    var h := Head(s, 10);
    var rows := MapSeq(h, ToLowRow);
    TopCounts(col, StrLess, s, GroupTotal, 10);
    forall j | 0 <= j < |h| ensures h[j].key in LowCities(rows) {
      assert rows[j].municipio == h[j].key;
    }
    forall i, m | 0 <= i < |rows| && m in PresentKeys(col) && m !in LowCities(rows)
      ensures rows[i].deaths <= Occurrences(col, m)
    {
      NotListed(h, LowCities(rows), m);
      assert GroupTotal(h[i]) <= GroupTotal(Group(m, Occurrences(col, m)));
    }
  }

  // ---------------------------------------------------------------------
  // process_data_for_top_causes

  /** The (COD_MUERTE, description) group key after the left merge on the cause table;
      null when the code is missing or has no description. */
  function CauseKey(causes: CauseTable, r: Record): Option<(string, string)> {
    match r.codMuerte
    case None => None
    case Some(c) => if c in causes then Some((c, causes[c])) else None
  }

  function CauseColumn(records: seq<Record>, causes: CauseTable): seq<Option<(string, string)>> {
    MapSeq(records, (r: Record) => CauseKey(causes, r))
  }

  /** A row under the renamed columns Código, Descripción, Total de Casos. */
  datatype CauseRow = CauseRow(codigo: string, descripcion: string, totalDeCasos: nat)

  function ToCauseRow(x: Group<(string, string)>): CauseRow { CauseRow(x.key.0, x.key.1, x.total) }

  function CausePairs(rows: seq<CauseRow>): set<(string, string)> {
    set i | 0 <= i < |rows| :: (rows[i].codigo, rows[i].descripcion)
  }

  function TopCauses(records: seq<Record>, causes: CauseTable): seq<CauseRow> {
    PairLessOrder();
    var byCause := GroupCount(CauseColumn(records, causes), PairLess);
    MapSeq(Head(SortByRank(byCause, NegTotal), 10), ToCauseRow)
  }

  lemma CauseKeysFromTable(records: seq<Record>, causes: CauseTable, p: (string, string))
    requires p in PresentKeys(CauseColumn(records, causes))
    ensures p.0 in causes && p.1 == causes[p.0]
  {
    PresentKeysIndex(CauseColumn(records, causes), p);
  }

  /** At most 10 rows, exactly min(10, number of (code, description) groups); each row
      a code of the cause table with its own description and its exact count; sorted
      non-increasing; distinct groups; no omitted group outnumbers a listed one.
      Records with a missing code or a code without description are in no group. */
  lemma TopCausesSpec(records: seq<Record>, causes: CauseTable)
    ensures var rows := TopCauses(records, causes); var col := CauseColumn(records, causes);
      && |rows| == Min(10, |PresentKeys(col)|)
      && (forall i, j :: 0 <= i < j < |rows| ==>
            rows[i].totalDeCasos >= rows[j].totalDeCasos &&
            (rows[i].codigo, rows[i].descripcion) != (rows[j].codigo, rows[j].descripcion))
      && (forall i :: 0 <= i < |rows| ==>
            && rows[i].codigo in causes && rows[i].descripcion == causes[rows[i].codigo]
            && rows[i].totalDeCasos == Occurrences(col, (rows[i].codigo, rows[i].descripcion)) > 0)
      && (forall i, p :: 0 <= i < |rows| && p in PresentKeys(col) && p !in CausePairs(rows) ==>
            Occurrences(col, p) <= rows[i].totalDeCasos)
  {
    PairLessOrder();
    var col := CauseColumn(records, causes);
    var g := GroupCount(col, PairLess);
    var s := SortByRank(g, NegTotal);
    var h := Head(s, 10);
    var rows := MapSeq(h, ToCauseRow);
    TopCounts(col, PairLess, s, NegTotal, 10);
    forall i | 0 <= i < |rows| ensures rows[i].codigo in causes && rows[i].descripcion == causes[rows[i].codigo] {
      assert h[i].key == (rows[i].codigo, rows[i].descripcion);
      CauseKeysFromTable(records, causes, h[i].key);
    }
    forall i, j | 0 <= i < j < |rows|
      ensures rows[i].totalDeCasos >= rows[j].totalDeCasos &&
              (rows[i].codigo, rows[i].descripcion) != (rows[j].codigo, rows[j].descripcion)
    {
      assert NegTotal(h[i]) <= NegTotal(h[j]);
      assert GroupKey(h[i]) != GroupKey(h[j]);
    }
    forall i, p | 0 <= i < |rows| && p in PresentKeys(col) && p !in CausePairs(rows)
      ensures Occurrences(col, p) <= rows[i].totalDeCasos
    {
      forall j | 0 <= j < |h| ensures h[j].key != p {
        assert (rows[j].codigo, rows[j].descripcion) == h[j].key;
      }
      KeysOfIndex(h, p);
      assert NegTotal(h[i]) <= NegTotal(Group(p, Occurrences(col, p)));
    }
  }

  // ---------------------------------------------------------------------
  // process_data_for_age_histogram

  /** `age_bins`. */
  const AGE_BINS: seq<int> := [0, 5, 10, 15, 20, 25, 30, 35, 40, 45, 50, 55, 60, 65, 70, 75, 80, 85, 90, 95, 100, 150]

  /** `age_labels`, one per interval of AGE_BINS. */
  const AGE_LABELS: seq<string> := [
    "0-4", "5-9", "10-14", "15-19", "20-24", "25-29", "30-34", "35-39", "40-44",
    "45-49", "50-54", "55-59", "60-64", "65-69", "70-74", "75-79", "80-84",
    "85-89", "90-94", "95-99", "100+"
  ]

  ghost predicate Increasing(bins: seq<int>) {
    forall i, j :: 0 <= i < j < |bins| ==> bins[i] < bins[j]
  }

  /** `pd.cut(v, bins, right=False)` as an interval index: the i with
      bins[i] <= v < bins[i + 1], or None. */
  function Cut(bins: seq<int>, v: int): Option<int> {
    if |bins| < 2 then None
    else if bins[0] <= v < bins[1] then Some(0)
    else match Cut(bins[1..], v)
      case None => None
      case Some(i) => Some(i + 1)
  }

  /** Left-closed intervals: v falls in interval i exactly when bins[i] <= v < bins[i + 1]. */
  lemma {:induction false} CutSpec(bins: seq<int>, v: int, i: int)
    requires Increasing(bins)
    ensures Cut(bins, v) == Some(i) <==> 0 <= i < |bins| - 1 && bins[i] <= v < bins[i + 1]
  {
    if |bins| >= 2 {
      CutSpec(bins[1..], v, i - 1);
      if 0 < i < |bins| && bins[i] <= v {
        assert bins[1] <= bins[i];
      }
    }
  }

  function AgeGroup(r: Record): Option<int> {
    match r.grupoEdad1
    case None => None
    case Some(v) => Cut(AGE_BINS, v)
  }

  function AgeColumn(records: seq<Record>): seq<Option<int>> { MapSeq(records, AgeGroup) }

  datatype AgeRow = AgeRow(ageGroup: string, count: nat)

  /** The categorical group-by lists every category in category order (pandas'
      observed=False), so the table has one row per label, zero counts included. */
  function AgeHistogram(records: seq<Record>): seq<AgeRow> {
    IntLessOrder();
    var byGroup := GroupCount(AgeColumn(records), IntLess);
    seq(|AGE_LABELS|, b requires 0 <= b < |AGE_LABELS| => AgeRow(AGE_LABELS[b], TotalOf(byGroup, b)))
  }

  /** 0 <= v < 100 falls in interval v / 5; 100 <= v < 150 in the last ("100+");
      anything else in none. */
  lemma AgeBucketClosedForm(v: int)
    ensures Cut(AGE_BINS, v) == if 0 <= v < 100 then Some(v / 5) else if 100 <= v < 150 then Some(20) else None
  {
    assert |AGE_BINS| == 22;
    assert forall i :: 0 <= i <= 20 ==> AGE_BINS[i] == 5 * i;
    assert AGE_BINS[21] == 150;
    assert Increasing(AGE_BINS);
    if 0 <= v < 100 {
      CutSpec(AGE_BINS, v, v / 5);
    } else if 100 <= v < 150 {
      CutSpec(AGE_BINS, v, 20);
    } else if Cut(AGE_BINS, v).Some? {
      CutSpec(AGE_BINS, v, Cut(AGE_BINS, v).value);
      assert false;
    }
  }

  /** pd.cut demands one label per interval; the open-ended last interval is "100+". */
  lemma AgeLabelsMatchBins()
    ensures |AGE_LABELS| == |AGE_BINS| - 1 == 21
    ensures Increasing(AGE_BINS)
    ensures AGE_LABELS[20] == "100+" && AGE_BINS[20] == 100
  {
    assert forall i :: 0 <= i <= 20 ==> AGE_BINS[i] == 5 * i;
  }

  /** One row per age label in bin order; each COUNT is the number of records whose
      GRUPO_EDAD1 falls in that label's interval. */
  lemma AgeHistogramSpec(records: seq<Record>)
    ensures |AgeHistogram(records)| == 21
    ensures forall b :: 0 <= b < 21 ==>
              AgeHistogram(records)[b].ageGroup == AGE_LABELS[b] &&
              AgeHistogram(records)[b].count == Occurrences(AgeColumn(records), b)
  {
    IntLessOrder();
    UnitsSpec(AgeColumn(records));
  }

  lemma OccurrencesFrom<K>(col: seq<Option<K>>, i: nat, k: K)
    requires i < |col|
    ensures Occurrences(col[i..], k) == (if col[i] == Some(k) then 1 else 0) + Occurrences(col[i + 1..], k)
  {
    assert col[i..][1..] == col[i + 1..];
  }

  lemma OccurrencesOfFour<K>(col: seq<Option<K>>, k: K)
    requires |col| == 4
    ensures Occurrences(col, k) ==
      (if col[0] == Some(k) then 1 else 0) + (if col[1] == Some(k) then 1 else 0) +
      (if col[2] == Some(k) then 1 else 0) + (if col[3] == Some(k) then 1 else 0)
  {
    assert col[0..] == col;
    OccurrencesFrom(col, 0, k);
    OccurrencesFrom(col, 1, k);
    OccurrencesFrom(col, 2, k);
    OccurrencesFrom(col, 3, k);
    assert col[4..] == [];
  }

  lemma AgeGroupOf(r: Record, v: int)
    requires r.grupoEdad1 == Some(v)
    ensures AgeGroup(r) == if 0 <= v < 100 then Some(v / 5) else if 100 <= v < 150 then Some(20) else None
  {
    AgeBucketClosedForm(v);
  }

  lemma AgeColumnExample(records: seq<Record>)
    requires |records| == 4
    requires records[0].grupoEdad1 == Some(2) && records[1].grupoEdad1 == Some(7)
    requires records[2].grupoEdad1 == Some(23) && records[3].grupoEdad1 == Some(101)
    ensures AgeColumn(records) == [Some(0), Some(1), Some(4), Some(20)]
  {
    var col := AgeColumn(records);
    AgeGroupOf(records[0], 2);
    AgeGroupOf(records[1], 7);
    AgeGroupOf(records[2], 23);
    AgeGroupOf(records[3], 101);
    assert col[0] == AgeGroup(records[0]);
    assert col[1] == AgeGroup(records[1]);
    assert col[2] == AgeGroup(records[2]);
    assert col[3] == AgeGroup(records[3]);
  }

  /** Four records aged 2, 7, 23 and 101 land in bins 0, 1, 4 and 20 ("0-4", "5-9",
      "20-24" and "100+"), one each, and every other bin is empty. */
  lemma AgeHistogramExample(records: seq<Record>)
    requires |records| == 4
    requires records[0].grupoEdad1 == Some(2) && records[1].grupoEdad1 == Some(7)
    requires records[2].grupoEdad1 == Some(23) && records[3].grupoEdad1 == Some(101)
    ensures forall b :: 0 <= b < 21 ==> AgeHistogram(records)[b].count == if b in {0, 1, 4, 20} then 1 else 0
  {
    AgeColumnExample(records);
    AgeHistogramSpec(records);
    forall b | 0 <= b < 21 ensures Occurrences(AgeColumn(records), b) == if b in {0, 1, 4, 20} then 1 else 0 {
      OccurrencesOfFour(AgeColumn(records), b);
    }
  }

  // ---------------------------------------------------------------------
  // process_data_for_gender_department

  /** The gender_mapping of the pipeline (and of src/app.py:86), insertion order kept. */
  const GENDER_MAPPING: Dict<int, string> := [(1, "Masculino"), (2, "Femenino"), (3, "Indeterminado")]

  /** `SEXO.map(gender_mapping)`. */
  function Gender(r: Record): Option<string> { Lookup(GENDER_MAPPING, r.sexo) }

  lemma GenderLabels(sexo: int)
    ensures Lookup(GENDER_MAPPING, sexo) ==
      if sexo == 1 then Some("Masculino")
      else if sexo == 2 then Some("Femenino")
      else if sexo == 3 then Some("Indeterminado")
      else None
  {
  }

  function GenderDeptKey(div: DivisionTable, r: Record): Option<(string, string)> {
    match (Department(div, r), Gender(r))
    case (Some(d), Some(g)) => Some((d, g))
    case _ => None
  }

  function GenderDeptColumn(records: seq<Record>, div: DivisionTable): seq<Option<(string, string)>> {
    MapSeq(records, (r: Record) => GenderDeptKey(div, r))
  }

  datatype GenderDeptRow = GenderDeptRow(departamento: string, gender: string, count: nat)

  function ToGenderDeptRow(x: Group<(string, string)>): GenderDeptRow { GenderDeptRow(x.key.0, x.key.1, x.total) }

  function GenderDepartment(records: seq<Record>, div: DivisionTable): seq<GenderDeptRow> {
    PairLessOrder();
    MapSeq(GroupCount(GenderDeptColumn(records, div), PairLess), ToGenderDeptRow)
  }

  /** One row per (DEPARTAMENTO, GENDER) pair present, in ascending pair order; COUNT
      is the number of records with that pair; GENDER is one of the three labels, so
      rows with another SEXO code or an unmatched COD_DANE are not counted. */
  lemma GenderDepartmentSpec(records: seq<Record>, div: DivisionTable)
    ensures var rows := GenderDepartment(records, div); var col := GenderDeptColumn(records, div);
      && (forall i, j :: 0 <= i < j < |rows| ==>
            PairLess((rows[i].departamento, rows[i].gender), (rows[j].departamento, rows[j].gender)))
      && (forall p :: p in PresentKeys(col) <==>
            exists i :: 0 <= i < |rows| && (rows[i].departamento, rows[i].gender) == p)
      && (forall i :: 0 <= i < |rows| ==>
            && rows[i].gender in {"Masculino", "Femenino", "Indeterminado"}
            && rows[i].count == Occurrences(col, (rows[i].departamento, rows[i].gender)) > 0)
  {
    PairLessOrder();
    var col := GenderDeptColumn(records, div);
    var g := GroupCount(col, PairLess);
    var rows := MapSeq(g, ToGenderDeptRow);
    assert GenderDepartment(records, div) == rows;
    GroupCountSpec(col, PairLess);
    forall i, j | 0 <= i < j < |rows|
      ensures PairLess((rows[i].departamento, rows[i].gender), (rows[j].departamento, rows[j].gender))
    {
      assert rows[i] == ToGenderDeptRow(g[i]) && rows[j] == ToGenderDeptRow(g[j]);
    }
    forall i | 0 <= i < |rows| ensures (rows[i].departamento, rows[i].gender) == g[i].key {
      assert rows[i] == ToGenderDeptRow(g[i]);
    }
    GenderDeptRowsKeys(g, rows);
    forall i | 0 <= i < |rows|
      ensures && rows[i].gender in {"Masculino", "Femenino", "Indeterminado"}
              && rows[i].count == Occurrences(col, (rows[i].departamento, rows[i].gender)) > 0
    {
      assert rows[i] == ToGenderDeptRow(g[i]);
      GenderOfGroup(records, div, g[i].key);
    }
  }

  /** A (department, gender) pair has a row exactly when it has a group. */
  lemma GenderDeptRowsKeys(g: seq<Group<(string, string)>>, rows: seq<GenderDeptRow>)
    requires |rows| == |g| && forall i :: 0 <= i < |rows| ==> (rows[i].departamento, rows[i].gender) == g[i].key
    ensures forall p :: p in KeysOf(g) <==> exists i :: 0 <= i < |rows| && (rows[i].departamento, rows[i].gender) == p
  {
    forall p ensures p in KeysOf(g) <==> exists i :: 0 <= i < |rows| && (rows[i].departamento, rows[i].gender) == p {
      KeysOfIndex(g, p);
    }
  }

  /** Every pair that occurs carries one of the three gender labels. */
  lemma GenderOfGroup(records: seq<Record>, div: DivisionTable, p: (string, string))
    requires p in PresentKeys(GenderDeptColumn(records, div))
    ensures p.1 in {"Masculino", "Femenino", "Indeterminado"}
  {
    var col := GenderDeptColumn(records, div);
    PresentKeysIndex(col, p);
    var k :| 0 <= k < |col| && col[k] == Some(p);
    GenderLabels(records[k].sexo);
  }
}
