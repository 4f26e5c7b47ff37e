/**
 * backup_table_to_avro (app.py): the Avro schema derived from the model's
 * columns, the mapping of each database record to an Avro record, and the
 * endpoint that writes the backup file.
 */
module Backup {
  import opened Wrappers
  import opened Values
  import opened Schema
  import opened Replies
  import DateTimes

  /** The Avro field types the schema uses; a date-time column is a nullable string. */
  datatype AvroType = AvroString | AvroInt | AvroFloat | AvroBoolean | AvroNullableString

  datatype AvroField = AvroField(name: string, typ: AvroType)

  datatype AvroSchema = AvroSchema(name: string, fields: seq<AvroField>)

  /** A written backup: the schema and the records, as fastavro is given them. */
  datatype BackupFile = BackupFile(schema: AvroSchema, records: seq<Row>)

  /** The Avro type chosen from a column's Python type: str, int, float, bool, anything else. */
  function FieldType(c: Column): AvroType
  {
    match c.kind
    case String => AvroString
    case Integer => AvroInt
    case Float => AvroFloat
    case Boolean => AvroBoolean
    case DateTime => AvroNullableString
  }

  function SchemaFields(columns: seq<Column>): (fields: seq<AvroField>)
    ensures |fields| == |columns|
    ensures forall i :: 0 <= i < |columns| ==> fields[i] == AvroField(columns[i].name, FieldType(columns[i]))
  {
    if columns == [] then [] else [AvroField(columns[0].name, FieldType(columns[0]))] + SchemaFields(columns[1..])
  }

  /** The schema of a table's backup: a record named `<table>_record` with one field per column, in column order. */
  function SchemaOf(table: string, m: ModelDecl): AvroSchema
  {
    AvroSchema(table + "_record", SchemaFields(m.columns))
  }

  /** A value an Avro field of type `t` can hold. */
  predicate Fits(t: AvroType, v: Value)
  {
    match t
    case AvroString => v.Str?
    case AvroInt => v.Int?
    case AvroFloat => v.Float?
    case AvroBoolean => v.Bool?
    case AvroNullableString => v.Null? || v.Str?
  }

  /** Numbers, booleans and `None` pass through; anything else is written as `str(value)`. */
  function AvroValue(v: Value): Value
  {
    if v.Int? || v.Float? || v.Bool? || v.Null? then v else Str(PyStr(v))
  }

  /** `getattr(record, header)`: an attribute the record does not hold reads as `None`. */
  function Attr(rec: Row, h: string): Value
  {
    if h in rec then rec[h] else Null
  }

  /** The Avro record of one database record: one entry per header. */
  function AvroRecordOf(headers: seq<string>, rec: Row): Row
  {
    if headers == [] then map[]
    else
      var n := |headers| - 1;
      AvroRecordOf(headers[..n], rec)[headers[n] := AvroValue(Attr(rec, headers[n]))]
  }

  function AvroRecords(headers: seq<string>, records: seq<Row>): (rs: seq<Row>)
    ensures |rs| == |records|
    ensures forall i :: 0 <= i < |records| ==> rs[i] == AvroRecordOf(headers, records[i])
  {
    if records == [] then []
    else AvroRecords(headers, records[..|records| - 1]) + [AvroRecordOf(headers, records[|records| - 1])]
  }

  /** The inner loop: fill the Avro record header by header. */
  method ToAvroRecord(headers: seq<string>, rec: Row) returns (avro: Row)
    ensures avro == AvroRecordOf(headers, rec)
  {
    avro := map[];
    var i := 0;
    while i < |headers|
      invariant 0 <= i <= |headers|
      invariant avro == AvroRecordOf(headers[..i], rec)
    {
      assert headers[..i + 1][..i] == headers[..i];
      var value := Attr(rec, headers[i]);
      if value.Int? || value.Float? || value.Bool? || value.Null? {
        avro := avro[headers[i] := value];
      } else {
        avro := avro[headers[i] := Str(PyStr(value))];
      }
      i := i + 1;
    }
    assert headers[..|headers|] == headers;
  }

  /** The outer loop: one Avro record per database record, in order. */
  method ToAvroRecords(headers: seq<string>, records: seq<Row>) returns (avros: seq<Row>)
    ensures avros == AvroRecords(headers, records)
  {
    avros := [];
    var i := 0;
    while i < |records|
      invariant 0 <= i <= |records|
      invariant avros == AvroRecords(headers, records[..i])
    {
      assert records[..i + 1][..i] == records[..i];
      var avro := ToAvroRecord(headers, records[i]);
      avros := avros + [avro];
      i := i + 1;
    }
    assert records[..|records|] == records;
  }

  /** What a backup request ends in: the reply, and the files in the bucket afterwards. */
  datatype BackupOutcome = BackupOutcome(reply: Reply, store: map<string, BackupFile>)

  /**
   * backup_table_to_avro. `rows` is what the query returns for the table,
   * `writeError` the failure, if any, of serialising or uploading the file.
   */
  function BackupTable(table: string, rows: seq<Row>, store: map<string, BackupFile>, writeError: Option<string>): BackupOutcome
  {
    BackupResolved(table, Lookup(table), rows, store, writeError)
  }

  /**
   * The handler once the lookup has answered `resolved`. When the table
   * does not resolve, the lookup's error reply is queried as if it were the
   * model, which the database library refuses with an ArgumentError: a 500,
   * not the unknown-table 400.
   */
  function BackupResolved(table: string, resolved: Option<ModelDecl>, rows: seq<Row>, store: map<string, BackupFile>,
                          writeError: Option<string>): BackupOutcome
  {
    match resolved
    case None => BackupOutcome(Failed("ArgumentError"), store)
    case Some(m) =>
      if rows == [] then BackupOutcome(NoData(table), store)
      else match writeError
        case Some(e) => BackupOutcome(Failed(e), store)
        case None =>
          var file := BackupFile(SchemaOf(table, m), AvroRecords(Headers(m), rows));
          BackupOutcome(BackupCreated(table), store[BackupPath(table) := file])
  }

  // ---------------------------------------------------------------------
  // Properties
  // ---------------------------------------------------------------------

  /** A database value of the column's type, as the model declares it. */
  predicate Conforms(c: Column, v: Value)
  {
    match c.kind
    case Integer => v.Int?
    case Float => v.Float?
    case Boolean => v.Bool?
    case String => v.Str?
    case DateTime => v.DateTime? && DateTimes.Valid(v.dt)
  }

  /** A record holding exactly the model's columns, each with a value of its type. */
  predicate RecordConforms(m: ModelDecl, rec: Row)
  {
    && rec.Keys == (set i | 0 <= i < |m.columns| :: m.columns[i].name)
    && forall i :: 0 <= i < |m.columns| ==> Conforms(m.columns[i], rec[m.columns[i].name])
  }

  /** The Avro record holds exactly the headers, each mapped from the record's attribute of that name. */
  lemma {:induction false} AvroRecordFields(headers: seq<string>, rec: Row)
    ensures AvroRecordOf(headers, rec).Keys == set i | 0 <= i < |headers| :: headers[i]
    ensures forall i :: 0 <= i < |headers| ==> AvroRecordOf(headers, rec)[headers[i]] == AvroValue(Attr(rec, headers[i]))
  {
    if headers != [] {
      var n := |headers| - 1;
      var init := headers[..n];
      AvroRecordFields(init, rec);
      assert forall i :: 0 <= i < n ==> init[i] == headers[i];
      var keys := set i | 0 <= i < |headers| :: headers[i];
      assert keys == (set i | 0 <= i < n :: init[i]) + {headers[n]} by {
        forall x | x in keys ensures x in (set i | 0 <= i < n :: init[i]) + {headers[n]} {
          var i :| 0 <= i < |headers| && headers[i] == x;
          if i < n {
            assert init[i] == x;
          }
        }
      }
    }
  }

  /** Every Avro value is a number, a boolean, `None` or text, and mapping it again changes nothing. */
  lemma AvroValueIsPlain(v: Value)
    ensures var a := AvroValue(v); a.Int? || a.Float? || a.Bool? || a.Null? || a.Str?
    ensures AvroValue(AvroValue(v)) == AvroValue(v)
    ensures v.DateTime? ==> AvroValue(v) == Str(DateTimes.StrText(v.dt))
  {
  }

  /**
   * A conforming record's Avro record fits the schema: each of the
   * schema's fields, in column order, is present with a value of the
   * field's type.
   */
  lemma BackupFitsSchema(table: string, m: ModelDecl, rec: Row)
    requires RecordConforms(m, rec)
    ensures var fields, avro := SchemaOf(table, m).fields, AvroRecordOf(Headers(m), rec);
      && |fields| == |m.columns|
      && forall i :: 0 <= i < |fields| ==>
           fields[i].name == m.columns[i].name && fields[i].name in avro && Fits(fields[i].typ, avro[fields[i].name])
  {
    AvroRecordFields(Headers(m), rec);
    var fields, avro := SchemaOf(table, m).fields, AvroRecordOf(Headers(m), rec);
    forall i | 0 <= i < |fields| ensures fields[i].name in avro && Fits(fields[i].typ, avro[fields[i].name]) {
      ConformingField(m, rec, i);
    }
  }

  lemma ConformingField(m: ModelDecl, rec: Row, i: nat)
    requires RecordConforms(m, rec) && i < |m.columns|
    ensures var c, avro := m.columns[i], AvroRecordOf(Headers(m), rec);
      c.name in avro && Fits(FieldType(c), avro[c.name])
  {
    var c := m.columns[i];
    var hs := Headers(m);
    AvroRecordFields(hs, rec);
    assert hs[i] == c.name;
    assert c.name in rec;
    assert AvroRecordOf(hs, rec)[c.name] == AvroValue(rec[c.name]);
  }

  /**
   * Nothing is written for an unknown table, an empty table (answered with
   * 404) or a failed write; otherwise exactly the table's backup path is (over)written, and
   * every other file stays as it was.
   */
  lemma BackupWritesOnlyItsPath(table: string, rows: seq<Row>, store: map<string, BackupFile>, writeError: Option<string>)
    ensures var o := BackupTable(table, rows, store, writeError);
      && (o.reply == BackupCreated(table) <==> Lookup(table).Some? && rows != [] && writeError.None?)
      && (o.reply != BackupCreated(table) ==> o.store == store)
      && (Lookup(table).Some? && rows == [] ==> o.reply == NoData(table) && o.reply.Status() == 404)
      && (o.reply == BackupCreated(table) ==>
            o.store.Keys == store.Keys + {BackupPath(table)}
            && (forall p :: p in store && p != BackupPath(table) ==> o.store[p] == store[p])
            && o.store[BackupPath(table)].records == AvroRecords(Headers(Lookup(table).value), rows))
  {
    BackupResolvedWrites(table, Lookup(table), rows, store, writeError);
  }

  lemma BackupResolvedWrites(table: string, resolved: Option<ModelDecl>, rows: seq<Row>, store: map<string, BackupFile>,
                             writeError: Option<string>)
    ensures var o := BackupResolved(table, resolved, rows, store, writeError);
      && (resolved.None? ==> o.store == store && o.reply.Status() == 500)
      && (o.reply == BackupCreated(table) <==> resolved.Some? && rows != [] && writeError.None?)
      && (o.reply != BackupCreated(table) ==> o.store == store)
      && (resolved.Some? && rows == [] ==> o.reply == NoData(table) && o.reply.Status() == 404)
      && (o.reply == BackupCreated(table) ==>
            o.store.Keys == store.Keys + {BackupPath(table)}
            && (forall p :: p in store && p != BackupPath(table) ==> o.store[p] == store[p])
            && o.store[BackupPath(table)].records == AvroRecords(Headers(resolved.value), rows))
  {
  }
}
