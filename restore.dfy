/**
 * restore_backup_from_avro (app.py): each Avro record of the table's
 * backup is turned back into a row of the model's columns with a coercion
 * of its own, and the rows are saved in one transaction -- or none are,
 * when any record fails.
 */
module Restore {
  import opened Wrappers
  import opened Text
  import opened Values
  import opened Schema
  import opened Replies
  import opened Backup
  import opened Coercion
  import opened Payload
  import opened Load
  import DateTimes

  /**
   * The restore path's coercion of one Avro value: `int(v)`, `float(v)`,
   * `bool(v)` (no integer step), `fromisoformat(v.replace("Z", ""))` for a
   * date-time column, and the value itself for any other column.
   */
  function RestoreValue(c: Column, v: Value): Result<Value, PyError>
  {
    match c.kind
    case Integer => var i :- ToInt(v); Ok(Int(i))
    case Float => ToFloat(v)
    case Boolean => Ok(Bool(Truthy(v)))
    case DateTime =>
      if !v.Str? then Err(AttributeError)
      else (match DateTimes.FromIsoFormat(Remove(v.s, 'Z'))
            case Some(dt) => Ok(Value.DateTime(dt))
            case None => Err(ValueError))
    case String => Ok(v)
  }

  /**
   * The row built for one Avro record: `acc` extended, column by column,
   * with the restored value of every model column the record holds.
   */
  function RestoreRow(columns: seq<Column>, avro: Row, acc: Row): Result<Row, PyError>
  {
    if columns == [] then Ok(acc)
    else
      var c := columns[0];
      if c.name in avro then
        var v :- RestoreValue(c, avro[c.name]);
        RestoreRow(columns[1..], avro, acc[c.name := v])
      else RestoreRow(columns[1..], avro, acc)
  }

  /** One record: its row, which the model's constructor (`accepts`) must take; a refusal raises a TypeError. */
  function RestoreRecord(columns: seq<Column>, accepts: Row -> bool, avro: Row): Result<Row, PyError>
  {
    var row :- RestoreRow(columns, avro, map[]);
    if accepts(row) then Ok(row) else Err(TypeError)
  }

  /** All records in order, or the error of the first one that fails. */
  function RestoreAll(columns: seq<Column>, accepts: Row -> bool, avros: seq<Row>): Result<seq<Row>, PyError>
  {
    if avros == [] then Ok([])
    else
      var rows :- RestoreAll(columns, accepts, avros[..|avros| - 1]);
      var row :- RestoreRecord(columns, accepts, avros[|avros| - 1]);
      Ok(rows + [row])
  }

  /** The inner loop: `row_dict` filled column by column. */
  method RestoreRecordLoop(columns: seq<Column>, accepts: Row -> bool, avro: Row) returns (r: Result<Row, PyError>)
    ensures r == RestoreRecord(columns, accepts, avro)
  {
    var row: Row := map[];
    var i := 0;
    while i < |columns|
      invariant 0 <= i <= |columns|
      invariant RestoreRow(columns, avro, map[]) == RestoreRow(columns[i..], avro, row)
    {
      assert columns[i..][1..] == columns[i + 1..];
      var c := columns[i];
      if c.name in avro {
        var v := RestoreValue(c, avro[c.name]);
        if v.Err? {
          return Err(v.error);
        }
        row := row[c.name := v.value];
      }
      i := i + 1;
    }
    if !accepts(row) {
      return Err(TypeError);
    }
    return Ok(row);
  }

  /** The outer loop over the reader: the first failing record aborts it. */
  method RestoreAllLoop(columns: seq<Column>, accepts: Row -> bool, avros: seq<Row>) returns (r: Result<seq<Row>, PyError>)
    ensures r == RestoreAll(columns, accepts, avros)
  {
    var records: seq<Row> := [];
    var i := 0;
    while i < |avros|
      invariant 0 <= i <= |avros|
      invariant RestoreAll(columns, accepts, avros[..i]) == Ok(records)
    {
      assert avros[..i + 1][..i] == avros[..i];
      var record := RestoreRecordLoop(columns, accepts, avros[i]);
      if record.Err? {
        RestoreAllStops(columns, accepts, avros, i + 1);
        return Err(record.error);
      }
      records := records + [record.value];
      i := i + 1;
    }
    assert avros[..|avros|] == avros;
    return Ok(records);
  }

  /** Once a prefix of the records fails, the whole restore fails with the same error. */
  lemma {:induction false} RestoreAllStops(columns: seq<Column>, accepts: Row -> bool, avros: seq<Row>, n: nat)
    requires n <= |avros| && RestoreAll(columns, accepts, avros[..n]).Err?
    ensures RestoreAll(columns, accepts, avros) == RestoreAll(columns, accepts, avros[..n])
    decreases |avros| - n
  {
    if n < |avros| {
      var m := |avros|;
      assert avros[..n] == avros[..m - 1][..n];
      RestoreAllStops(columns, accepts, avros[..m - 1], n);
    } else {
      assert avros[..n] == avros;
    }
  }

  /** What a restore request ends in: the reply, and the rows saved. */
  datatype RestoreOutcome = RestoreOutcome(reply: Reply, saved: seq<Row>)

  /** The exception's name, standing for its message. */
  function ErrorText(e: PyError): string
  {
    match e
    case TypeError => "TypeError"
    case ValueError => "ValueError"
    case AttributeError => "AttributeError"
  }

  /** restore_backup_from_avro. */
  function RestoreTable(table: string, store: map<string, BackupFile>, accepts: Row -> bool, commitError: Option<string>): RestoreOutcome
  {
    RestoreResolved(table, Lookup(table), store, accepts, commitError)
  }

  /**
   * The restore handler once the lookup has answered `resolved`. A missing
   * backup file is a 404 before the lookup matters; an AttributeError (the
   * first record of a table that does not resolve, or a date-time field
   * that is not text) is reported as an unknown table; any other failure is
   * a 500 with nothing saved. A table that does not resolve fails only once
   * a record is read, so an empty backup of it commits nothing and succeeds.
   */
  function RestoreResolved(table: string, resolved: Option<ModelDecl>, store: map<string, BackupFile>, accepts: Row -> bool,
                           commitError: Option<string>): RestoreOutcome
  {
    if BackupPath(table) !in store then RestoreOutcome(BackupMissing(table), [])
    else
      match resolved
      case None =>
        if store[BackupPath(table)].records != [] then RestoreOutcome(UnknownTable(table), [])
        else (match commitError
              case Some(e) => RestoreOutcome(Failed(e), [])
              case None => RestoreOutcome(Restored(table), []))
      case Some(m) =>
        match RestoreAll(m.columns, accepts, store[BackupPath(table)].records)
        case Err(AttributeError) => RestoreOutcome(UnknownTable(table), [])
        case Err(e) => RestoreOutcome(Failed(ErrorText(e)), [])
        case Ok(rows) =>
          match commitError
          case Some(e) => RestoreOutcome(Failed(e), [])
          case None => RestoreOutcome(Restored(table), rows)
  }

  // ---------------------------------------------------------------------
  // Properties
  // ---------------------------------------------------------------------

  predicate AllRestore(columns: seq<Column>, avro: Row)
  {
    forall i :: 0 <= i < |columns| && columns[i].name in avro ==> RestoreValue(columns[i], avro[columns[i].name]).Ok?
  }

  /**
   * `r` is `acc` extended with the model columns the record holds, each
   * with its restored value; keys of the record that are not model
   * columns are not copied.
   */
  ghost predicate RowRestored(columns: seq<Column>, avro: Row, acc: Row, r: Row)
  {
    && (forall k :: k in r <==> k in acc || (k in ColumnNames(columns) && k in avro))
    && (forall i :: 0 <= i < |columns| && columns[i].name in avro ==>
          RestoreValue(columns[i], avro[columns[i].name]) == Ok(r[columns[i].name]))
    && (forall k :: k in acc && k !in ColumnNames(columns) ==> r[k] == acc[k])
  }

  /** A record restores exactly when each of its model columns does, and the row holds those columns and nothing else. */
  lemma {:induction false} RestoreRowMeaning(columns: seq<Column>, avro: Row, acc: Row)
    requires DistinctNames(columns)
    ensures RestoreRow(columns, avro, acc).Ok? <==> AllRestore(columns, avro)
    ensures RestoreRow(columns, avro, acc).Ok? ==> RowRestored(columns, avro, acc, RestoreRow(columns, avro, acc).value)
  {
    if columns != [] {
      var c, rest := columns[0], columns[1..];
      assert forall j :: 0 <= j < |rest| ==> rest[j] == columns[j + 1];
      assert DistinctNames(rest);
      assert ColumnNames(columns) == [c.name] + ColumnNames(rest);
      if c.name in avro {
        var v := RestoreValue(c, avro[c.name]);
        if v.Ok? {
          RestoreRowMeaning(rest, avro, acc[c.name := v.value]);
          RestoreRowStep(columns, avro, acc, v.value);
        }
      } else {
        RestoreRowMeaning(rest, avro, acc);
        RestoreRowSkip(columns, avro, acc);
      }
    }
  }

  lemma RestoreRowStep(columns: seq<Column>, avro: Row, acc: Row, w: Value)
    requires DistinctNames(columns) && columns != [] && columns[0].name in avro
    requires RestoreValue(columns[0], avro[columns[0].name]) == Ok(w)
    requires ColumnNames(columns) == [columns[0].name] + ColumnNames(columns[1..])
    requires forall j :: 0 <= j < |columns[1..]| ==> columns[1..][j] == columns[j + 1]
    requires var rest, acc' := columns[1..], acc[columns[0].name := w];
      && (RestoreRow(rest, avro, acc').Ok? <==> AllRestore(rest, avro))
      && (RestoreRow(rest, avro, acc').Ok? ==> RowRestored(rest, avro, acc', RestoreRow(rest, avro, acc').value))
    ensures RestoreRow(columns, avro, acc).Ok? <==> AllRestore(columns, avro)
    ensures RestoreRow(columns, avro, acc).Ok? ==> RowRestored(columns, avro, acc, RestoreRow(columns, avro, acc).value)
  {
    var c, rest, acc' := columns[0], columns[1..], acc[columns[0].name := w];
    assert RestoreRow(columns, avro, acc) == RestoreRow(rest, avro, acc');
    assert c.name !in ColumnNames(rest) by {
      forall j | 0 <= j < |rest| ensures ColumnNames(rest)[j] != c.name {
        assert rest[j] == columns[j + 1];
      }
    }
    StepAllRestore(columns, avro);
    if RestoreRow(rest, avro, acc').Ok? {
      StepRowRestored(columns, avro, acc, w, RestoreRow(rest, avro, acc').value);
    }
  }

  lemma StepAllRestore(columns: seq<Column>, avro: Row)
    requires columns != []
    requires columns[0].name in avro ==> RestoreValue(columns[0], avro[columns[0].name]).Ok?
    requires forall j :: 0 <= j < |columns[1..]| ==> columns[1..][j] == columns[j + 1]
    ensures AllRestore(columns[1..], avro) <==> AllRestore(columns, avro)
  {
    var rest := columns[1..];
    if AllRestore(rest, avro) {
      forall i | 0 <= i < |columns| && columns[i].name in avro
        ensures RestoreValue(columns[i], avro[columns[i].name]).Ok?
      {
        if i > 0 {
          assert columns[i] == rest[i - 1];
        }
      }
    } else {
      var j :| 0 <= j < |rest| && rest[j].name in avro && !RestoreValue(rest[j], avro[rest[j].name]).Ok?;
      assert columns[j + 1] == rest[j];
    }
  }

  lemma StepRowRestored(columns: seq<Column>, avro: Row, acc: Row, w: Value, r: Row)
    requires columns != [] && columns[0].name in avro
    requires RestoreValue(columns[0], avro[columns[0].name]) == Ok(w)
    requires ColumnNames(columns) == [columns[0].name] + ColumnNames(columns[1..])
    requires columns[0].name !in ColumnNames(columns[1..])
    requires forall j :: 0 <= j < |columns[1..]| ==> columns[1..][j] == columns[j + 1]
    requires RowRestored(columns[1..], avro, acc[columns[0].name := w], r)
    ensures RowRestored(columns, avro, acc, r)
  {
    var c, rest, acc' := columns[0], columns[1..], acc[columns[0].name := w];
    assert r[c.name] == w;
    forall i | 0 <= i < |columns| && columns[i].name in avro
      ensures RestoreValue(columns[i], avro[columns[i].name]) == Ok(r[columns[i].name])
    {
      if i > 0 {
        assert columns[i] == rest[i - 1];
      }
    }
  }

  lemma RestoreRowSkip(columns: seq<Column>, avro: Row, acc: Row)
    requires columns != [] && columns[0].name !in avro
    requires ColumnNames(columns) == [columns[0].name] + ColumnNames(columns[1..])
    requires forall j :: 0 <= j < |columns[1..]| ==> columns[1..][j] == columns[j + 1]
    requires var rest := columns[1..];
      && (RestoreRow(rest, avro, acc).Ok? <==> AllRestore(rest, avro))
      && (RestoreRow(rest, avro, acc).Ok? ==> RowRestored(rest, avro, acc, RestoreRow(rest, avro, acc).value))
    ensures RestoreRow(columns, avro, acc).Ok? <==> AllRestore(columns, avro)
    ensures RestoreRow(columns, avro, acc).Ok? ==> RowRestored(columns, avro, acc, RestoreRow(columns, avro, acc).value)
  {
    var rest := columns[1..];
    assert RestoreRow(columns, avro, acc) == RestoreRow(rest, avro, acc);
    StepAllRestore(columns, avro);
    if RestoreRow(rest, avro, acc).Ok? {
      SkipRowRestored(columns, avro, acc, RestoreRow(rest, avro, acc).value);
    }
  }

  lemma SkipRowRestored(columns: seq<Column>, avro: Row, acc: Row, r: Row)
    requires columns != [] && columns[0].name !in avro
    requires ColumnNames(columns) == [columns[0].name] + ColumnNames(columns[1..])
    requires forall j :: 0 <= j < |columns[1..]| ==> columns[1..][j] == columns[j + 1]
    requires RowRestored(columns[1..], avro, acc, r)
    ensures RowRestored(columns, avro, acc, r)
  {
    var rest := columns[1..];
    forall i | 0 <= i < |columns| && columns[i].name in avro
      ensures RestoreValue(columns[i], avro[columns[i].name]) == Ok(r[columns[i].name])
    {
      assert i > 0 && columns[i] == rest[i - 1];
    }
  }

  /** The backup's text of a conforming value restores to the value itself. */
  lemma RestoreValueOfBackup(c: Column, v: Value)
    requires Conforms(c, v)
    ensures RestoreValue(c, AvroValue(v)) == Ok(v)
  {
    if c.kind == ColumnKind.DateTime {
      DateTimes.NoZInDateText(v.dt, ' ');
      RemoveAbsent(DateTimes.StrText(v.dt), 'Z');
      DateTimes.FromIsoFormatReadsDateText(v.dt, ' ');
    }
  }

  /** A conforming record's Avro record restores to the record itself. */
  lemma RestoreRecordOfBackup(m: ModelDecl, rec: Row)
    requires DistinctNames(m.columns) && RecordConforms(m, rec)
    ensures RestoreRow(m.columns, AvroRecordOf(Headers(m), rec), map[]) == Ok(rec)
  {
    var avro := AvroRecordOf(Headers(m), rec);
    BackupColumnsRestore(m, rec);
    RestoreRowMeaning(m.columns, avro, map[]);
    var r := RestoreRow(m.columns, avro, map[]).value;
    SameKeys(m, r, rec);
    SameRow(m, r, rec);
  }

  /** Every model column is in the Avro record of a conforming record, and restores to the record's value. */
  lemma BackupColumnsRestore(m: ModelDecl, rec: Row)
    requires RecordConforms(m, rec)
    ensures var avro := AvroRecordOf(Headers(m), rec);
      forall i :: 0 <= i < |m.columns| ==>
        (m.columns[i].name in avro && RestoreValue(m.columns[i], avro[m.columns[i].name]) == Ok(rec[m.columns[i].name]))
  {
    var hs, avro := Headers(m), AvroRecordOf(Headers(m), rec);
    AvroRecordFields(hs, rec);
    forall i | 0 <= i < |m.columns| ensures m.columns[i].name in avro
      && RestoreValue(m.columns[i], avro[m.columns[i].name]) == Ok(rec[m.columns[i].name])
    {
      assert hs[i] == m.columns[i].name;
      RestoreValueOfBackup(m.columns[i], rec[m.columns[i].name]);
    }
  }

  /** Two rows with the same keys, all of them model columns, that agree on every column are equal. */
  lemma SameRow(m: ModelDecl, r: Row, rec: Row)
    requires r.Keys == rec.Keys && rec.Keys == (set i | 0 <= i < |m.columns| :: m.columns[i].name)
    requires forall i :: 0 <= i < |m.columns| ==> rec[m.columns[i].name] == r[m.columns[i].name]
    ensures r == rec
  {
    forall k | k in r ensures r[k] == rec[k] {
      var i :| 0 <= i < |m.columns| && m.columns[i].name == k;
    }
  }

  lemma SameKeys(m: ModelDecl, r: Row, rec: Row)
    requires rec.Keys == (set i | 0 <= i < |m.columns| :: m.columns[i].name)
    requires forall k :: k in r <==> (k in ColumnNames(m.columns) && k in AvroRecordOf(Headers(m), rec))
    requires forall i :: 0 <= i < |m.columns| ==> m.columns[i].name in AvroRecordOf(Headers(m), rec)
    ensures r.Keys == rec.Keys
  {
    var names := ColumnNames(m.columns);
    forall k ensures k in r <==> k in rec {
      if k in r {
        var i :| 0 <= i < |m.columns| && names[i] == k;
      }
      if k in rec {
        var i :| 0 <= i < |m.columns| && m.columns[i].name == k;
        assert names[i] == k;
      }
    }
  }

  /** Restoring the Avro records of conforming rows, all accepted by the model, gives back the rows in order. */
  lemma RestoreAllOfBackup(m: ModelDecl, accepts: Row -> bool, rows: seq<Row>)
    requires DistinctNames(m.columns)
    requires forall i :: 0 <= i < |rows| ==> RecordConforms(m, rows[i]) && accepts(rows[i])
    ensures RestoreAll(m.columns, accepts, AvroRecords(Headers(m), rows)) == Ok(rows)
  {
    var avros := AvroRecords(Headers(m), rows);
    forall i | 0 <= i < |rows| ensures RestoreRecord(m.columns, accepts, avros[i]) == Ok(rows[i]) {
      RestoreRecordOfBackup(m, rows[i]);
    }
    RestoredInOrder(m.columns, accepts, avros, rows);
  }

  /** When every record restores on its own, all of them restore, in order. */
  lemma {:induction false} RestoredInOrder(columns: seq<Column>, accepts: Row -> bool, avros: seq<Row>, rows: seq<Row>)
    requires |avros| == |rows|
    requires forall i :: 0 <= i < |avros| ==> RestoreRecord(columns, accepts, avros[i]) == Ok(rows[i])
    ensures RestoreAll(columns, accepts, avros) == Ok(rows)
  {
    if avros != [] {
      var n := |avros| - 1;
      RestoredInOrder(columns, accepts, avros[..n], rows[..n]);
      assert rows[..n] + [rows[n]] == rows;
    }
  }

  /**
   * A backup followed by a restore of the same table, with no write or
   * commit failing, restores exactly the rows that were backed up: both
   * endpoints use the same path, and every conforming value survives its
   * text form.
   */
  lemma BackupThenRestore(table: string, rows: seq<Row>, store: map<string, BackupFile>, accepts: Row -> bool)
    requires Lookup(table).Some? && rows != []
    requires forall i :: 0 <= i < |rows| ==> RecordConforms(Lookup(table).value, rows[i]) && accepts(rows[i])
    ensures var b := BackupTable(table, rows, store, None);
      RestoreTable(table, b.store, accepts, None) == RestoreOutcome(Restored(table), rows)
  {
    ResolvesOnlyDepartments(table);
    RegistryNamesDistinct();
    RestoreAllOfBackup(Lookup(table).value, accepts, rows);
  }

  /**
   * A missing backup file is answered with a 404 whatever the table, and
   * otherwise the restore is all or nothing: either every record is saved
   * and the reply is the success message, or nothing is saved.
   */
  lemma RestoreAllOrNothing(table: string, store: map<string, BackupFile>, accepts: Row -> bool, commitError: Option<string>)
    ensures var o := RestoreTable(table, store, accepts, commitError);
      && (BackupPath(table) !in store ==> o == RestoreOutcome(BackupMissing(table), []) && o.reply.Status() == 404)
      && (|| (o.saved == [] && o.reply != Restored(table))
          || (o.reply == Restored(table) && BackupPath(table) in store && commitError.None?
              && (if Lookup(table).Some?
                  then RestoreAll(Lookup(table).value.columns, accepts, store[BackupPath(table)].records) == Ok(o.saved)
                  else store[BackupPath(table)].records == [] && o.saved == [])))
  {
    RestoreOutcomes(table, Lookup(table), store, accepts, commitError);
  }

  /** The restore handler's outcomes, whatever the lookup answers. */
  lemma RestoreOutcomes(table: string, resolved: Option<ModelDecl>, store: map<string, BackupFile>, accepts: Row -> bool,
                        commitError: Option<string>)
    ensures var o := RestoreResolved(table, resolved, store, accepts, commitError);
      && (BackupPath(table) !in store ==> o == RestoreOutcome(BackupMissing(table), []) && o.reply.Status() == 404)
      && (resolved.None? ==> o.saved == [])
      && (resolved.None? && BackupPath(table) in store && store[BackupPath(table)].records != [] ==> o.reply == UnknownTable(table))
      && (BackupPath(table) in store && resolved.Some?
          && RestoreAll(resolved.value.columns, accepts, store[BackupPath(table)].records) == Err(AttributeError)
          ==> o == RestoreOutcome(UnknownTable(table), []) && o.reply.Status() == 400)
      && (BackupPath(table) in store && resolved.Some? && o.reply == UnknownTable(table)
          ==> RestoreAll(resolved.value.columns, accepts, store[BackupPath(table)].records) == Err(AttributeError))
      && (|| (o.saved == [] && o.reply != Restored(table))
          || (o.reply == Restored(table) && BackupPath(table) in store && commitError.None?
              && (if resolved.Some?
                  then RestoreAll(resolved.value.columns, accepts, store[BackupPath(table)].records) == Ok(o.saved)
                  else store[BackupPath(table)].records == [] && o.saved == [])))
  {
  }

  /**
   * The two coercions differ. A Boolean column reads `"0"` as false when
   * loading but as true when restoring (`bool` of a non-empty string), and
   * reads `"true"` only when restoring.
   */
  lemma BooleanLoadAndRestoreDisagree(c: Column)
    requires c.kind == Boolean
    ensures CoerceValue(c, Str("0")) == Ok(Bool(false)) && RestoreValue(c, Str("0")) == Ok(Bool(true))
    ensures CoerceValue(c, Str("true")).Err? && RestoreValue(c, Str("true")) == Ok(Bool(true))
  {
    BooleanFromText(c);
  }

  /**
   * A `None` the backup wrote for a nullable column: an Integer or Float
   * column refuses it (a 500), a Boolean column reads it as false, a String
   * column keeps it, and a DateTime column would raise an AttributeError,
   * which the restore answers as an unknown table (no table that resolves
   * has one; see ResolvedRestoreNeverUnknown).
   */
  lemma RestoreOfNull(c: Column)
    ensures AvroValue(Null) == Null
    ensures c.kind == Integer || c.kind == ColumnKind.Float ==> RestoreValue(c, Null) == Err(TypeError)
    ensures c.kind == Boolean ==> RestoreValue(c, Null) == Ok(Bool(false))
    ensures c.kind == String ==> RestoreValue(c, Null) == Ok(Null)
    ensures c.kind == ColumnKind.DateTime ==> RestoreValue(c, Null) == Err(AttributeError)
  {
  }

  /** No column of `columns` is a date-time column. */
  predicate NoDateTimeColumn(columns: seq<Column>)
  {
    forall i :: 0 <= i < |columns| ==> columns[i].kind != ColumnKind.DateTime
  }

  /** Only a date-time column raises an AttributeError while a row is built. */
  lemma {:induction false} RestoreRowNoAttributeError(columns: seq<Column>, avro: Row, acc: Row)
    requires NoDateTimeColumn(columns)
    ensures RestoreRow(columns, avro, acc) != Err(AttributeError)
    decreases |columns|
  {
    if columns != [] {
      var c := columns[0];
      assert c.kind != ColumnKind.DateTime;
      assert NoDateTimeColumn(columns[1..]) by {
        forall i | 0 <= i < |columns| - 1 ensures columns[1..][i].kind != ColumnKind.DateTime {
          assert columns[1..][i] == columns[i + 1];
        }
      }
      if c.name in avro {
        var v := RestoreValue(c, avro[c.name]);
        if v.Ok? {
          RestoreRowNoAttributeError(columns[1..], avro, acc[c.name := v.value]);
        }
      } else {
        RestoreRowNoAttributeError(columns[1..], avro, acc);
      }
    }
  }

  /** Without a date-time column no record, and so no restore, raises an AttributeError. */
  lemma {:induction false} RestoreAllNoAttributeError(columns: seq<Column>, accepts: Row -> bool, avros: seq<Row>)
    requires NoDateTimeColumn(columns)
    ensures RestoreAll(columns, accepts, avros) != Err(AttributeError)
    decreases |avros|
  {
    if avros != [] {
      RestoreAllNoAttributeError(columns, accepts, avros[..|avros| - 1]);
      RestoreRowNoAttributeError(columns, avros[|avros| - 1], map[]);
    }
  }

  /** A resolved model without a date-time column is never answered as an unknown table. */
  lemma RestoreResolvedNeverUnknown(table: string, resolved: Option<ModelDecl>, store: map<string, BackupFile>,
                                    accepts: Row -> bool, commitError: Option<string>)
    requires resolved.Some? && NoDateTimeColumn(resolved.value.columns)
    ensures RestoreResolved(table, resolved, store, accepts, commitError).reply != UnknownTable(table)
  {
    if BackupPath(table) in store {
      RestoreAllNoAttributeError(resolved.value.columns, accepts, store[BackupPath(table)].records);
    }
    RestoreOutcomes(table, resolved, store, accepts, commitError);
  }

  /** The departments model holds an Integer and a String column. */
  lemma DepartmentsHaveNoDateTime()
    ensures NoDateTimeColumn(Departments.columns)
  {
    assert |Departments.columns| == 2;
  }

  /** The one table that resolves has no date-time column. */
  lemma ResolvedHasNoDateTime(table: string)
    requires Lookup(table).Some?
    ensures NoDateTimeColumn(Lookup(table).value.columns)
  {
    ResolvesOnlyDepartments(table);
    DepartmentsHaveNoDateTime();
  }

  /**
   * Restoring the one table that resolves never raises an AttributeError
   * and is never answered as an unknown table: the restore's 400 is
   * reached only for a table that does not resolve and whose backup holds
   * a record.
   */
  lemma ResolvedRestoreNeverUnknown(table: string, store: map<string, BackupFile>, accepts: Row -> bool, commitError: Option<string>)
    requires Lookup(table).Some?
    ensures forall avros :: RestoreAll(Lookup(table).value.columns, accepts, avros) != Err(AttributeError)
    ensures RestoreTable(table, store, accepts, commitError).reply != UnknownTable(table)
  {
    var resolved := Lookup(table);
    ResolvedHasNoDateTime(table);
    forall avros ensures RestoreAll(resolved.value.columns, accepts, avros) != Err(AttributeError) {
      RestoreAllNoAttributeError(resolved.value.columns, accepts, avros);
    }
    RestoreResolvedNeverUnknown(table, resolved, store, accepts, commitError);
  }

  /**
   * The lookup derives `Jobs` and `HiredEmployees` from the other two
   * table names, which are not the classes the models declare, so no
   * endpoint stores anything for them. A payload load still answers with
   * the success message whenever the body passes its checks and the empty
   * commit goes through; a CSV load with any line fails with a 500; a
   * backup fails with a 500; a restore of a non-empty backup is refused as
   * an unknown table.
   */
  lemma OnlyDepartmentsIsServed(table: string, body: Body, lines: Option<seq<seq<string>>>, rows: seq<Row>,
                                store: map<string, BackupFile>, accepts: Row -> bool, err: Option<string>)
    requires table != "departments"
    ensures var o := LoadFromPayload(table, body, accepts, err);
      && o.committed == []
      && (o.reply == Loaded(table) <==> PayloadRecords(body).Ok? && err.None?)
    ensures var o := LoadHistoric(table, lines, accepts, err);
      o.committed == [] && (lines.Some? && lines.value != [] ==> o.reply == InternalError)
    ensures var o := BackupTable(table, rows, store, err); o.store == store && o.reply.Status() == 500
    ensures var o := RestoreTable(table, store, accepts, err);
      && o.saved == []
      && (BackupPath(table) in store && store[BackupPath(table)].records != [] ==> o.reply == UnknownTable(table))
  {
    ResolvesOnlyDepartments(table);
    var resolved := Lookup(table);
    assert resolved == None;
    PayloadRecordsMeaning(body);
    PayloadLoadOutcomes(table, resolved, body, accepts, err);
    HistoricLoadOutcomes(table, resolved, lines, accepts, err);
    BackupResolvedWrites(table, resolved, rows, store, err);
    RestoreOutcomes(table, resolved, store, accepts, err);
  }
}
