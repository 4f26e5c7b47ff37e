/**
 * The declared models (the modules under globant/models) as a constant registry, the
 * class-name lookup the handlers perform with `importlib`, the header list
 * and the storage paths derived from a table name.
 */
module Schema {
  import opened Wrappers
  import opened Text

  /** The SQLAlchemy column types the models use. */
  datatype ColumnKind = Integer | Float | Boolean | String | DateTime

  datatype Column = Column(
    name: string,
    kind: ColumnKind,
    primaryKey: bool,
    nullable: bool,
    foreignKey: Option<string>,
    length: Option<nat>)

  /** One model module: its module name, the class it declares and that class's columns in declaration order. */
  datatype ModelDecl = ModelDecl(moduleName: string, className: string, tableName: string, columns: seq<Column>)

  const Departments := ModelDecl("departments", "Departments", "departments", [
    Column("id", Integer, true, false, None, None),
    Column("department", String, false, false, None, Some(50))])

  const Jobs := ModelDecl("jobs", "Job", "jobs", [
    Column("id", Integer, true, false, None, None),
    Column("job", String, false, false, None, Some(50))])

  const HiredEmployees := ModelDecl("hired_employees", "HiredEmployee", "hired_employees", [
    Column("id", Integer, true, false, None, None),
    Column("name", String, false, false, None, Some(100)),
    Column("datetime", DateTime, false, false, None, None),
    Column("department_id", Integer, false, false, Some("departments.id"), None),
    Column("job_id", Integer, false, false, Some("jobs.id"), None)])

  /** The model modules under globant/models. */
  const Registry: seq<ModelDecl> := [Departments, Jobs, HiredEmployees]

  function ColumnNames(columns: seq<Column>): (names: seq<string>)
    ensures |names| == |columns|
    ensures forall i :: 0 <= i < |names| ==> names[i] == columns[i].name
  {
    if columns == [] then [] else [columns[0].name] + ColumnNames(columns[1..])
  }

  /** No name occurs twice. */
  predicate Distinct(names: seq<string>)
  {
    forall i, j :: 0 <= i < j < |names| ==> names[i] != names[j]
  }

  /** No two columns share a name. */
  predicate DistinctNames(columns: seq<Column>)
  {
    Distinct(ColumnNames(columns))
  }

  /** The column names of a model, in declaration order: the handlers' `headers`. */
  function Headers(m: ModelDecl): seq<string>
  {
    ColumnNames(m.columns)
  }

  function CapitalizeAll(words: seq<string>): (r: seq<string>)
    ensures |r| == |words|
  {
    if words == [] then [] else [Capitalize(words[0])] + CapitalizeAll(words[1..])
  }

  /** The class name looked up for a table: its `_`-separated words capitalised and joined. */
  function ClassName(table: string): string
  {
    Concat(CapitalizeAll(Split(table, '_')))
  }

  /** The model module named `table`, if one exists (the import succeeds). */
  function ModuleNamed(table: string, decls: seq<ModelDecl>): (r: Option<ModelDecl>)
    ensures r.Some? ==> r.value in decls && r.value.moduleName == table
    ensures r.None? ==> forall d :: d in decls ==> d.moduleName != table
  {
    if decls == [] then None
    else if decls[0].moduleName == table then Some(decls[0])
    else ModuleNamed(table, decls[1..])
  }

  /**
   * The model for a table: the module must exist and must declare a class
   * with exactly the derived class name, otherwise the lookup fails.
   */
  function Lookup(table: string): Option<ModelDecl>
  {
    var m :- ModuleNamed(table, Registry);
    if m.className == ClassName(table) then Some(m) else None
  }

  const BasePath := "database"

  /** Where the CSV of historic rows is read from. */
  function HistoricPath(table: string): string
  {
    BasePath + "/" + table + "/historic/" + table + ".csv"
  }

  /** Where a table's Avro backup is written and read back from. */
  function BackupPath(table: string): string
  {
    BasePath + "/" + table + "/backup/" + table + ".avro"
  }

  // ---------------------------------------------------------------------
  // Properties
  // ---------------------------------------------------------------------

  lemma {:induction false} LowerConcatCapitalized(words: seq<string>)
    ensures LowerAll(Concat(CapitalizeAll(words))) == LowerAll(Concat(words))
  {
    if words != [] {
      LowerConcatCapitalized(words[1..]);
      calc {
        LowerAll(Concat(CapitalizeAll(words)));
        LowerAll(Capitalize(words[0]) + Concat(CapitalizeAll(words[1..])));
        { LowerAllAppend(Capitalize(words[0]), Concat(CapitalizeAll(words[1..]))); }
        LowerAll(Capitalize(words[0])) + LowerAll(Concat(CapitalizeAll(words[1..])));
        { CapitalizeIgnoringCase(words[0]); }
        LowerAll(words[0]) + LowerAll(Concat(words[1..]));
        { LowerAllAppend(words[0], Concat(words[1..])); }
        LowerAll(Concat(words));
      }
    }
  }

  /** Up to case, the derived class name is the table name with its underscores removed. */
  lemma ClassNameIgnoringCase(table: string)
    ensures LowerAll(ClassName(table)) == LowerAll(Remove(table, '_'))
  {
    LowerConcatCapitalized(Split(table, '_'));
    ConcatSplit(table, '_');
  }

  /** The derived class name is exactly as long as the table name without its underscores. */
  lemma ClassNameLength(table: string)
    ensures |ClassName(table)| == |Remove(table, '_')|
  {
    ClassNameIgnoringCase(table);
  }

  /** A table name without underscores is one word, so its class name is that word capitalised. */
  lemma ClassNameOfWord(table: string)
    requires '_' !in table
    ensures ClassName(table) == Capitalize(table)
  {
    SplitWithoutSeparator(table, '_');
    var w := Capitalize(table);
    assert [w][1..] == [];
    assert Concat([w]) == w + Concat([]);
    assert w + "" == w;
  }

  lemma ClassNameOfDepartments(table: string)
    requires table == "departments"
    ensures ClassName(table) == "Departments"
  {
    assert '_' !in table;
    ClassNameOfWord(table);
    CapitalizeDepartments(table);
  }

  lemma CapitalizeDepartments(table: string)
    requires table == "departments"
    ensures Capitalize(table) == "Departments"
  {
    assert forall i :: 1 <= i < |table| ==> !('A' <= table[i] <= 'Z');
    CapitalizeOfLower(table);
    assert [Upper(table[0])] + table[1..] == "Departments";
  }

  /** A word whose letters after the first are not upper case is capitalised by upper-casing its first letter alone. */
  lemma CapitalizeOfLower(w: string)
    requires w != [] && forall i :: 1 <= i < |w| ==> !('A' <= w[i] <= 'Z')
    ensures Capitalize(w) == [Upper(w[0])] + w[1..]
  {
    LowerAllOfLower(w[1..]);
  }

  /** Only the module's own name can resolve, and then only when the derived class name matches. */
  lemma LookupCandidates(table: string)
    ensures Lookup(table).Some? ==> Lookup(table).value in Registry && Lookup(table).value.moduleName == table
    ensures Lookup(table).Some? ==> Lookup(table).value.className == ClassName(table)
    ensures table != "departments" && table != "jobs" && table != "hired_employees" ==> Lookup(table).None?
  {
  }

  /**
   * As written, the lookup resolves `departments` only: `jobs` derives
   * `Jobs` (one letter longer than the declared `Job`) and
   * `hired_employees` derives a 14-letter name for the 13-letter
   * `HiredEmployee`.
   */
  lemma ResolvesOnlyDepartments(table: string)
    ensures Lookup(table).Some? <==> table == "departments"
    ensures Lookup(table).Some? ==> Lookup(table).value == Departments
  {
    LookupCandidates(table);
    if table == "departments" {
      DepartmentsResolves(table);
    } else if table == "jobs" {
      JobsDoesNotResolve(table);
    } else if table == "hired_employees" {
      HiredEmployeesDoesNotResolve(table);
    }
  }

  lemma DepartmentsResolves(table: string)
    requires table == "departments"
    ensures Lookup(table) == Some(Departments)
  {
    ClassNameOfDepartments(table);
    assert ModuleNamed(table, Registry) == Some(Departments);
  }

  lemma JobsDoesNotResolve(table: string)
    requires table == "jobs"
    ensures Lookup(table) == None
  {
    ClassNameLength(table);
    RemoveAbsent(table, '_');
    assert ModuleNamed(table, Registry) == Some(Jobs);
  }

  lemma HiredEmployeesDoesNotResolve(table: string)
    requires table == "hired_employees"
    ensures Lookup(table) == None
  {
    HiredEmployeesClassNameLength(table);
    HiredEmployeesModule(table);
    assert |HiredEmployees.className| == 13;
    ClassNameMismatch(table, HiredEmployees);
  }

  lemma HiredEmployeesModule(table: string)
    requires table == "hired_employees"
    ensures ModuleNamed(table, Registry) == Some(HiredEmployees)
  {
  }

  /** A table whose module declares a class of another length does not resolve. */
  lemma ClassNameMismatch(table: string, m: ModelDecl)
    requires ModuleNamed(table, Registry) == Some(m) && |ClassName(table)| != |m.className|
    ensures Lookup(table) == None
  {
  }

  lemma HiredEmployeesClassNameLength(table: string)
    requires table == "hired_employees"
    ensures |ClassName(table)| == 14
  {
    ClassNameLength(table);
    var a, b := table[..5], table[6..];
    assert table == a + ['_'] + b;
    assert '_' !in a && '_' !in b;
    RemoveOneSeparator(a, b, '_');
  }

  lemma RemoveOneSeparator(a: string, b: string, c: char)
    requires c !in a && c !in b
    ensures Remove(a + [c] + b, c) == a + b
  {
    RemoveAppend(a + [c], b, c);
    RemoveAppend(a, [c], c);
    RemoveAbsent(a, c);
    RemoveAbsent(b, c);
    assert a + "" == a;
  }

  lemma HeadersOfDepartments()
    ensures Headers(Departments) == ["id", "department"]
  {
  }

  /** Every declared model has distinct column names. */
  lemma RegistryNamesDistinct()
    ensures forall m :: m in Registry ==> DistinctNames(m.columns)
  {
    NamesDistinct(Departments.columns, ["id", "department"]);
    NamesDistinct(Jobs.columns, ["id", "job"]);
    NamesDistinct(HiredEmployees.columns, ["id", "name", "datetime", "department_id", "job_id"]);
  }

  /** Columns named by a list of distinct names have distinct names. */
  lemma NamesDistinct(columns: seq<Column>, names: seq<string>)
    requires |columns| == |names| && Distinct(names)
    requires forall i :: 0 <= i < |columns| ==> columns[i].name == names[i]
    ensures DistinctNames(columns)
  {
    assert ColumnNames(columns) == names;
  }

  /** Distinct tables read distinct historic files and write distinct backups. */
  lemma PathsInjective(a: string, b: string)
    ensures HistoricPath(a) == HistoricPath(b) ==> a == b
    ensures BackupPath(a) == BackupPath(b) ==> a == b
  {
    FramedInjective(BasePath + "/", "/historic/", ".csv", a, b);
    FramedInjective(BasePath + "/", "/backup/", ".avro", a, b);
  }

  /** A name written twice into a fixed frame is determined by the result. */
  lemma FramedInjective(pre: string, mid: string, post: string, a: string, b: string)
    ensures pre + a + mid + a + post == pre + b + mid + b + post ==> a == b
  {
    var sa, sb := pre + a + mid + a + post, pre + b + mid + b + post;
    if sa == sb {
      assert |a| == |b|;
      assert sa[|pre|..|pre| + |a|] == a;
      assert sb[|pre|..|pre| + |b|] == b;
    }
  }

  /** A backup never lands on a historic CSV file. */
  lemma BackupNotHistoric(a: string, b: string)
    ensures BackupPath(a) != HistoricPath(b)
  {
    var x, y := BackupPath(a), HistoricPath(b);
    assert x[|x| - 1] == 'o';
    assert y[|y| - 1] == 'v';
  }
}
