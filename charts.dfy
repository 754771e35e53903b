/** The two data steps inside the chart builders (src/visualizations/charts.py): the
    department-name normalisation before the choropleth is drawn, and the choice of
    the ten departments with most deaths before the gender bar chart is drawn. */
module Charts {
  import opened Collections
  import opened Grouping
  import opened DataLoader

  // ---------------------------------------------------------------------
  // Department-name normalisation (create_department_map)

  /** `department_mapping`: DIVIPOLA names, upper-cased, to the names the GeoJSON uses. */
  const DEPARTMENT_MAPPING: map<string, string> := map[
    "AMAZONAS" := "AMAZONAS",
    "ANTIOQUIA" := "ANTIOQUIA",
    "ARAUCA" := "ARAUCA",
    "ARCHIPIÉLAGO DE SAN ANDRÉS, PROVIDENCIA Y SANTA CATALINA" := "SAN ANDRES",
    "ATLÁNTICO" := "ATLANTICO",
    "BARRANQUILLA D.E." := "ATLANTICO",
    "BOGOTÁ, D.C." := "BOGOTA D.C.",
    "BOGOTA D.C." := "BOGOTA D.C.",
    "BOLÍVAR" := "BOLIVAR",
    "CARTAGENA D.T. Y C." := "BOLIVAR",
    "BOYACÁ" := "BOYACA",
    "CALDAS" := "CALDAS",
    "CAQUETÁ" := "CAQUETA",
    "CASANARE" := "CASANARE",
    "CAUCA" := "CAUCA",
    "CESAR" := "CESAR",
    "CHOCÓ" := "CHOCO",
    "CÓRDOBA" := "CORDOBA",
    "CUNDINAMARCA" := "CUNDINAMARCA",
    "GUAINÍA" := "GUAINIA",
    "GUAVIARE" := "GUAVIARE",
    "HUILA" := "HUILA",
    "LA GUAJIRA" := "LA GUAJIRA",
    "MAGDALENA" := "MAGDALENA",
    "SANTA MARTA D.T. Y C." := "MAGDALENA",
    "META" := "META",
    "NARIÑO" := "NARIÑO",
    "NORTE DE SANTANDER" := "NORTE DE SANTANDER",
    "PUTUMAYO" := "PUTUMAYO",
    "QUINDÍO" := "QUINDIO",
    "RISARALDA" := "RISARALDA",
    "SANTANDER" := "SANTANDER",
    "SUCRE" := "SUCRE",
    "TOLIMA" := "TOLIMA",
    "VALLE DEL CAUCA" := "VALLE DEL CAUCA",
    "BUENAVENTURA D.E." := "VALLE DEL CAUCA",
    "VAUPÉS" := "VAUPES",
    "VICHADA" := "VICHADA"
  ]

  /** `Series.replace(department_mapping)` on one value: a key is replaced by its
      target, any other name is left as it is. */
  function ReplaceDepartment(name: string): string {
    if name in DEPARTMENT_MAPPING then DEPARTMENT_MAPPING[name] else name
  }

  /** The copy of the department table with DEPARTAMENTO upper-cased and then replaced;
      `upper` is Python's str.upper. */
  function NormalizeDepartments(rows: seq<DeptRow>, upper: string -> string): seq<DeptRow> {
    MapSeq(rows, (x: DeptRow) => DeptRow(ReplaceDepartment(upper(x.departamento)), x.totalDeaths))
  }

  /** Every target of the table is either no key or a key that maps to itself. */
  lemma MappingSettles()
    ensures forall k :: k in DEPARTMENT_MAPPING ==>
              DEPARTMENT_MAPPING[k] !in DEPARTMENT_MAPPING || DEPARTMENT_MAPPING[DEPARTMENT_MAPPING[k]] == DEPARTMENT_MAPPING[k]
  {
  }

  /** Replacing twice is replacing once. */
  lemma ReplaceIdempotent(name: string)
    ensures ReplaceDepartment(ReplaceDepartment(name)) == ReplaceDepartment(name)
  {
    MappingSettles();
  }

  /** `str.upper` as the normalisation relies on it: applying it twice is applying it
      once, and it leaves the (already upper-case) targets of the table alone. */
  ghost predicate UpperCaser(upper: string -> string) {
    && (forall s :: upper(upper(s)) == upper(s))
    && (forall k :: k in DEPARTMENT_MAPPING ==> upper(DEPARTMENT_MAPPING[k]) == DEPARTMENT_MAPPING[k])
  }

  /** The normalisation renames and never merges: same rows in the same order, same
      TOTAL_DEATHS, hence the same national total; a name is replaced by its
      table entry when its upper-case form is a key and is otherwise only upper-cased. */
  lemma NormalizeDepartmentsSpec(rows: seq<DeptRow>, upper: string -> string)
    ensures |NormalizeDepartments(rows, upper)| == |rows|
    ensures forall i :: 0 <= i < |rows| ==>
              var u := upper(rows[i].departamento);
              && NormalizeDepartments(rows, upper)[i].totalDeaths == rows[i].totalDeaths
              && (u in DEPARTMENT_MAPPING ==> NormalizeDepartments(rows, upper)[i].departamento == DEPARTMENT_MAPPING[u])
              && (u !in DEPARTMENT_MAPPING ==> NormalizeDepartments(rows, upper)[i].departamento == u)
    ensures SumDeaths(NormalizeDepartments(rows, upper)) == SumDeaths(rows)
  {
    SameTotals(NormalizeDepartments(rows, upper), rows);
  }

  lemma {:induction false} SameTotals(a: seq<DeptRow>, b: seq<DeptRow>)
    requires |a| == |b| && forall i :: 0 <= i < |a| ==> a[i].totalDeaths == b[i].totalDeaths
    ensures SumDeaths(a) == SumDeaths(b)
  {
    if a != [] {
      assert forall i :: 0 <= i < |a[1..]| ==> a[1..][i].totalDeaths == b[1..][i].totalDeaths by {
        forall i | 0 <= i < |a[1..]| ensures a[1..][i].totalDeaths == b[1..][i].totalDeaths {
          assert a[1..][i] == a[i + 1] && b[1..][i] == b[i + 1];
        }
      }
      SameTotals(a[1..], b[1..]);
    }
  }

  /** Normalising an already normalised table changes nothing. */
  lemma NormalizeDepartmentsIdempotent(rows: seq<DeptRow>, upper: string -> string)
    requires UpperCaser(upper)
    ensures NormalizeDepartments(NormalizeDepartments(rows, upper), upper) == NormalizeDepartments(rows, upper)
  {
    var once := NormalizeDepartments(rows, upper);
    var twice := NormalizeDepartments(once, upper);
    forall i | 0 <= i < |rows| ensures twice[i] == once[i] {
      var u := upper(rows[i].departamento);
      assert upper(ReplaceDepartment(u)) == ReplaceDepartment(u);
      ReplaceIdempotent(u);
    }
  }

  /** The table is many-to-one: the department and its capital district both land on
      ATLANTICO, and two such rows stay two rows with their own totals. */
  lemma NormalizeDepartmentsExample(rows: seq<DeptRow>, upper: string -> string)
    requires |rows| == 2
    requires rows[0].departamento == "ATLÁNTICO" && rows[1].departamento == "BARRANQUILLA D.E."
    requires upper(rows[0].departamento) == rows[0].departamento && upper(rows[1].departamento) == rows[1].departamento
    ensures NormalizeDepartments(rows, upper) ==
              [DeptRow("ATLANTICO", rows[0].totalDeaths), DeptRow("ATLANTICO", rows[1].totalDeaths)]
  {
  }

  // ---------------------------------------------------------------------
  // The ten departments with most deaths (create_gender_department_chart)

  /** The (DEPARTAMENTO, COUNT) column pair fed to the group-by. */
  function DeptCounts(rows: seq<GenderDeptRow>): (r: seq<(Option<string>, nat)>)
    ensures |r| == |rows|
  {
    MapSeq(rows, (x: GenderDeptRow) => (Some(x.departamento), x.count))
  }

  /** `groupby('DEPARTAMENTO')['COUNT'].sum()`. */
  function DepartmentTotals(rows: seq<GenderDeptRow>): seq<Group<string>> {
    StrLessOrder();
    Tally(DeptCounts(rows), StrLess)
  }

  /** `.nlargest(10).index.tolist()`. */
  function TopDepartments(rows: seq<GenderDeptRow>): seq<string> {
    MapSeq(Head(SortByRank(DepartmentTotals(rows), NegTotal), 10), GroupKey)
  }

  /** `deaths_by_dept_gender[deaths_by_dept_gender['DEPARTAMENTO'].isin(top_depts)]`. */
  function KeepTopDepartments(rows: seq<GenderDeptRow>): seq<GenderDeptRow> {
    var top := TopDepartments(rows);
    Keep(rows, (x: GenderDeptRow) => x.departamento in top)
  }

  /** The departments that have a row. */
  ghost function Departments(rows: seq<GenderDeptRow>): set<string> {
    set x | x in rows :: x.departamento
  }

  /** The deaths of a department summed across its gender rows. */
  function DeptTotal(rows: seq<GenderDeptRow>, d: string): nat {
    if rows == [] then 0
    else (if rows[0].departamento == d then rows[0].count else 0) + DeptTotal(rows[1..], d)
  }

  lemma {:induction false} DeptCountsWeights(rows: seq<GenderDeptRow>, d: string)
    ensures Weight(DeptCounts(rows), d) == DeptTotal(rows, d)
    ensures d in Present(DeptCounts(rows)) <==> d in Departments(rows)
  {
    if rows != [] {
      assert DeptCounts(rows)[1..] == DeptCounts(rows[1..]);
      DeptCountsWeights(rows[1..], d);
      assert rows == [rows[0]] + rows[1..];
      assert Departments(rows) == {rows[0].departamento} + Departments(rows[1..]);
    }
  }

  /** The group-by sum: one row per department, in ascending name order, whose total
      is the department's deaths summed across its gender rows. */
  lemma DepartmentTotalsSpec(rows: seq<GenderDeptRow>)
    ensures Ascending(DepartmentTotals(rows), StrLess)
    ensures DistinctBy(DepartmentTotals(rows), GroupKey)
    ensures KeysOf(DepartmentTotals(rows)) == Departments(rows)
    ensures |DepartmentTotals(rows)| == |Departments(rows)|
    ensures forall x :: x in DepartmentTotals(rows) ==> x.total == DeptTotal(rows, x.key)
  {
    StrLessOrder();
    var g := DepartmentTotals(rows);
    AscendingDistinct(g, StrLess);
    DistinctCard(g);
    assert KeysOf(g) == Departments(rows) by {
      forall d ensures d in KeysOf(g) <==> d in Departments(rows) { DeptCountsWeights(rows, d); }
    }
    forall x | x in g ensures x.total == DeptTotal(rows, x.key) {
      var j :| 0 <= j < |g| && g[j] == x;
      TotalOfAt(g, j);
      DeptCountsWeights(rows, x.key);
    }
  }

  /** The selected departments: at most ten, distinct, and each with rows. */
  lemma TopDepartmentsSize(rows: seq<GenderDeptRow>)
    ensures |TopDepartments(rows)| == Min(10, |Departments(rows)|)
    ensures forall i, j :: 0 <= i < j < |TopDepartments(rows)| ==> TopDepartments(rows)[i] != TopDepartments(rows)[j]
    ensures forall i :: 0 <= i < |TopDepartments(rows)| ==> TopDepartments(rows)[i] in Departments(rows)
  {
    StrLessOrder();
    var g := DepartmentTotals(rows);
    var h := Head(SortByRank(g, NegTotal), 10);
    var top := TopDepartments(rows);
    assert top == MapSeq(h, GroupKey);
    DepartmentTotalsSpec(rows);
    TopGroups(g, SortByRank(g, NegTotal), StrLess, NegTotal, 10);
    forall i, j | 0 <= i < j < |top| ensures top[i] != top[j] {
      assert GroupKey(h[i]) != GroupKey(h[j]);
    }
    forall i | 0 <= i < |top| ensures top[i] in Departments(rows) {
      assert h[i] in g;
      KeysOfIndex(g, h[i].key);
    }
  }

  /** The selected departments come by non-increasing summed deaths. */
  lemma TopDepartmentsSorted(rows: seq<GenderDeptRow>)
    ensures forall i, j :: 0 <= i < j < |TopDepartments(rows)| ==>
              DeptTotal(rows, TopDepartments(rows)[i]) >= DeptTotal(rows, TopDepartments(rows)[j])
  {
    StrLessOrder();
    var g := DepartmentTotals(rows);
    var h := Head(SortByRank(g, NegTotal), 10);
    var top := TopDepartments(rows);
    assert top == MapSeq(h, GroupKey);
    DepartmentTotalsSpec(rows);
    TopOfAnySort(g, SortByRank(g, NegTotal), NegTotal, 10);
    forall i, j | 0 <= i < j < |top| ensures DeptTotal(rows, top[i]) >= DeptTotal(rows, top[j]) {
      assert h[i] in g && h[j] in g;
      assert NegTotal(h[i]) <= NegTotal(h[j]);
    }
  }

  lemma KeysOfNames(h: seq<Group<string>>)
    ensures forall d :: d in MapSeq(h, GroupKey) <==> d in KeysOf(h)
  {
    forall d ensures d in MapSeq(h, GroupKey) <==> d in KeysOf(h) {
      KeysOfIndex(h, d);
      if d in KeysOf(h) {
        var k :| 0 <= k < |h| && h[k].key == d;
        assert MapSeq(h, GroupKey)[k] == d;
      }
    }
  }

  /** No department left out has more deaths than one that was selected. */
  lemma TopDepartmentsMaximal(rows: seq<GenderDeptRow>)
    ensures forall i, d :: 0 <= i < |TopDepartments(rows)| && d in Departments(rows) && d !in TopDepartments(rows) ==>
              DeptTotal(rows, d) <= DeptTotal(rows, TopDepartments(rows)[i])
  {
    StrLessOrder();
    var g := DepartmentTotals(rows);
    var h := Head(SortByRank(g, NegTotal), 10);
    var top := TopDepartments(rows);
    assert top == MapSeq(h, GroupKey);
    DepartmentTotalsSpec(rows);
    TopGroups(g, SortByRank(g, NegTotal), StrLess, NegTotal, 10);
    KeysOfNames(h);
    forall i, d | 0 <= i < |top| && d in Departments(rows) && d !in top
      ensures DeptTotal(rows, d) <= DeptTotal(rows, top[i])
    {
      KeysOfIndex(g, d);
      var j :| 0 <= j < |g| && g[j].key == d;
      assert g[j] in g && h[i] in g;
      assert NegTotal(h[i]) <= NegTotal(g[j]);
    }
  }

  /** The refinement keeps every row of a selected department as often as it occurs
      and in input order, drops every other row, and leaves exactly the selected
      departments on the chart. */
  lemma KeepTopDepartmentsSpec(rows: seq<GenderDeptRow>)
    ensures IsSubsequence(KeepTopDepartments(rows), rows)
    ensures forall x :: multiset(KeepTopDepartments(rows))[x] ==
              if x.departamento in TopDepartments(rows) then multiset(rows)[x] else 0
    ensures forall d :: d in Departments(KeepTopDepartments(rows)) <==> d in TopDepartments(rows)
    ensures |TopDepartments(rows)| <= 10
  {
    var top := TopDepartments(rows);
    var p := (x: GenderDeptRow) => x.departamento in top;
    var r := KeepTopDepartments(rows);
    assert r == Keep(rows, p);
    KeepIsSubsequence(rows, p);
    KeepCount(rows, p);
    TopDepartmentsSize(rows);
    forall d ensures d in Departments(r) <==> d in top {
      if d in top {
        var x :| x in rows && x.departamento == d;
        assert multiset(r)[x] == multiset(rows)[x] > 0;
      }
    }
  }
}
