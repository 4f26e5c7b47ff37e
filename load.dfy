/**
 * The two load endpoints (app.py): rows from a JSON payload or from the
 * table's historic CSV file go through the model lookup and
 * validate_and_prepare_records, and the records kept are committed in one
 * transaction.
 */
module Load {
  import opened Wrappers
  import opened Text
  import opened Values
  import opened Schema
  import opened Replies
  import opened Payload
  import opened Coercion

  /** `dict(zip(headers, cells))`: pairs up to the shorter length, a later pair overwriting an earlier one. */
  function Zip(headers: seq<string>, cells: seq<string>): Row
    decreases |headers|
  {
    var n := if |headers| < |cells| then |headers| else |cells|;
    if n == 0 then map[]
    else Zip(headers[..n - 1], cells[..n - 1])[headers[n - 1] := Str(cells[n - 1])]
  }

  /** The rows of the CSV file as the dicts the loader validates: every line, the first one included. */
  function CsvData(m: ModelDecl, lines: seq<seq<string>>): (data: seq<Body>)
    ensures |data| == |lines|
    ensures forall i :: 0 <= i < |lines| ==> data[i] == Dict(Zip(Headers(m), lines[i]))
  {
    if lines == [] then [] else [Dict(Zip(Headers(m), lines[0]))] + CsvData(m, lines[1..])
  }

  /** What a load request ends in: the reply, and the records the transaction committed. */
  datatype Outcome = Outcome(reply: Reply, committed: seq<Row>)

  /** Add every record and commit; a failing commit is rolled back and reported as a 500. */
  function Commit(table: string, records: seq<Row>, commitError: Option<string>): Outcome
  {
    match commitError
    case None => Outcome(Loaded(table), records)
    case Some(e) => Outcome(CommitFailed(e), [])
  }

  /**
   * load_data_from_payload. `accepts` stands for the model's constructor,
   * `commitError` for the database's answer to the commit.
   */
  function LoadFromPayload(table: string, body: Body, accepts: Row -> bool, commitError: Option<string>): Outcome
  {
    PayloadLoadResolved(table, Lookup(table), body, accepts, commitError)
  }

  /**
   * The payload handler once the lookup has answered `resolved`. When the
   * table does not resolve, the lookup's error reply is taken for the
   * model, every row fails on it and is dropped, and the empty transaction
   * is committed.
   */
  function PayloadLoadResolved(table: string, resolved: Option<ModelDecl>, body: Body, accepts: Row -> bool,
                               commitError: Option<string>): Outcome
  {
    match PayloadRecords(body)
    case Err(reply) => Outcome(reply, [])
    case Ok(items) =>
      match resolved
      case None => Commit(table, [], commitError)
      case Some(m) => Commit(table, Validated(m.columns, accepts, items), commitError)
  }

  /**
   * load_historic_csv_data_to_db. `lines` is the parsed CSV file, `None`
   * when it cannot be downloaded or decoded (an exception the handler does
   * not catch).
   */
  function LoadHistoric(table: string, lines: Option<seq<seq<string>>>, accepts: Row -> bool, commitError: Option<string>): Outcome
  {
    HistoricLoadResolved(table, Lookup(table), lines, accepts, commitError)
  }

  /**
   * The CSV handler once the lookup has answered `resolved`. When the table
   * does not resolve, the headers are the lookup's status code, and zipping
   * a line with it raises a TypeError the handler does not catch; an empty
   * file commits nothing.
   */
  function HistoricLoadResolved(table: string, resolved: Option<ModelDecl>, lines: Option<seq<seq<string>>>,
                                accepts: Row -> bool, commitError: Option<string>): Outcome
  {
    match lines
    case None => Outcome(InternalError, [])
    case Some(rows) =>
      match resolved
      case None => if rows == [] then Commit(table, [], commitError) else Outcome(InternalError, [])
      case Some(m) => Commit(table, Validated(m.columns, accepts, CsvData(m, rows)), commitError)
  }

  // ---------------------------------------------------------------------
  // Properties
  // ---------------------------------------------------------------------

  /**
   * With distinct headers, field `i` of a CSV line lands under header `i`
   * for every `i` below the shorter length, and nothing else is in the row.
   */
  lemma ZipFields(headers: seq<string>, cells: seq<string>)
    requires Distinct(headers)
    ensures var n := if |headers| < |cells| then |headers| else |cells|;
      && (forall k :: k in Zip(headers, cells) <==> k in headers[..n])
      && (forall i :: 0 <= i < n ==> Zip(headers, cells)[headers[i]] == Str(cells[i]))
  {
    ZipKeys(headers, cells);
    ZipValues(headers, cells);
  }

  lemma {:induction false} ZipKeys(headers: seq<string>, cells: seq<string>)
    ensures var n := if |headers| < |cells| then |headers| else |cells|;
      forall k :: k in Zip(headers, cells) <==> k in headers[..n]
  {
    var n := if |headers| < |cells| then |headers| else |cells|;
    if n > 0 {
      var h, c := headers[..n - 1], cells[..n - 1];
      ZipKeys(h, c);
      assert headers[..n] == h + [headers[n - 1]];
    }
  }

  lemma {:induction false} ZipValues(headers: seq<string>, cells: seq<string>)
    requires Distinct(headers)
    ensures var n := if |headers| < |cells| then |headers| else |cells|;
      forall i :: 0 <= i < n ==> headers[i] in Zip(headers, cells) && Zip(headers, cells)[headers[i]] == Str(cells[i])
  {
    var n := if |headers| < |cells| then |headers| else |cells|;
    if n > 0 {
      var h, c := headers[..n - 1], cells[..n - 1];
      assert Distinct(h);
      ZipValues(h, c);
      forall i | 0 <= i < n ensures headers[i] in Zip(headers, cells) && Zip(headers, cells)[headers[i]] == Str(cells[i]) {
        if i < n - 1 {
          assert h[i] == headers[i] && c[i] == cells[i];
        }
      }
    }
  }

  /**
   * The payload checks come before anything else: a refused body gets its
   * 400 whatever the table (known or not), and nothing is committed.
   */
  lemma PayloadChecksComeFirst(table: string, body: Body, accepts: Row -> bool, commitError: Option<string>)
    requires PayloadRecords(body).Err?
    ensures LoadFromPayload(table, body, accepts, commitError) == Outcome(PayloadRecords(body).error, [])
    ensures LoadFromPayload(table, body, accepts, commitError).reply.Status() == 400
  {
    PayloadLoadOutcomes(table, Lookup(table), body, accepts, commitError);
  }

  /**
   * Once the body is accepted, no row is ever reported: the reply is the
   * success message or a commit failure, never a 400, however many rows
   * were dropped -- all of them when the table does not resolve.
   */
  lemma NoRowErrorsReported(table: string, body: Body, accepts: Row -> bool, commitError: Option<string>)
    requires PayloadRecords(body).Ok?
    ensures var o := LoadFromPayload(table, body, accepts, commitError);
      && o.reply.Status() != 400
      && (o.reply == Loaded(table) <==> commitError.None?)
      && (Lookup(table).None? ==> o.committed == [])
  {
    PayloadLoadOutcomes(table, Lookup(table), body, accepts, commitError);
  }

  /**
   * The commit is all or nothing: either every record the rows yielded is
   * committed and the reply is the success message, or nothing is.
   */
  lemma PayloadAllOrNothing(table: string, body: Body, accepts: Row -> bool, commitError: Option<string>)
    ensures var o := LoadFromPayload(table, body, accepts, commitError);
      || (o.committed == [] && o.reply != Loaded(table))
      || (o.reply == Loaded(table) && PayloadRecords(body).Ok? && commitError.None?
          && o.committed == (if Lookup(table).Some?
                             then Validated(Lookup(table).value.columns, accepts, PayloadRecords(body).value)
                             else []))
  {
    PayloadLoadOutcomes(table, Lookup(table), body, accepts, commitError);
  }

  /** The payload handler's outcomes, whatever the lookup answers. */
  lemma PayloadLoadOutcomes(table: string, resolved: Option<ModelDecl>, body: Body, accepts: Row -> bool, commitError: Option<string>)
    ensures var o := PayloadLoadResolved(table, resolved, body, accepts, commitError);
      && (PayloadRecords(body).Err? ==> o == Outcome(PayloadRecords(body).error, []))
      && (PayloadRecords(body).Ok? ==> o.reply.Status() != 400 && (o.reply == Loaded(table) <==> commitError.None?))
      && (resolved.None? ==> o.committed == [])
      && (|| (o.committed == [] && o.reply != Loaded(table))
          || (o.reply == Loaded(table) && PayloadRecords(body).Ok? && commitError.None?
              && o.committed == (if resolved.Some? then Validated(resolved.value.columns, accepts, PayloadRecords(body).value) else [])))
  {
  }

  lemma HistoricAllOrNothing(table: string, lines: Option<seq<seq<string>>>, accepts: Row -> bool, commitError: Option<string>)
    ensures var o := LoadHistoric(table, lines, accepts, commitError);
      || (o.committed == [] && o.reply != Loaded(table))
      || (o.reply == Loaded(table) && lines.Some? && commitError.None?
          && o.committed == (if Lookup(table).Some?
                             then Validated(Lookup(table).value.columns, accepts, CsvData(Lookup(table).value, lines.value))
                             else []))
    ensures Lookup(table).None? && lines.Some? && lines.value != [] ==>
      LoadHistoric(table, lines, accepts, commitError).reply == InternalError
  {
    HistoricLoadOutcomes(table, Lookup(table), lines, accepts, commitError);
  }

  /** The CSV handler's outcomes, whatever the lookup answers. */
  lemma HistoricLoadOutcomes(table: string, resolved: Option<ModelDecl>, lines: Option<seq<seq<string>>>,
                             accepts: Row -> bool, commitError: Option<string>)
    ensures var o := HistoricLoadResolved(table, resolved, lines, accepts, commitError);
      && (resolved.None? ==> o.committed == [])
      && (resolved.None? && lines.Some? && lines.value != [] ==> o.reply == InternalError)
      && (|| (o.committed == [] && o.reply != Loaded(table))
          || (o.reply == Loaded(table) && lines.Some? && commitError.None?
              && o.committed == (if resolved.Some? then Validated(resolved.value.columns, accepts, CsvData(resolved.value, lines.value)) else [])))
  {
  }

  /**
   * The CSV's first line is read as data: a header line `id,department`
   * for `departments` fails the integer coercion of `id` and is dropped,
   * so the load is the same as without it.
   */
  lemma HeaderLineIsDropped(table: string, header: seq<string>, rest: seq<seq<string>>, accepts: Row -> bool, commitError: Option<string>)
    requires table == "departments" && header == ["id", "department"]
    ensures LoadHistoric(table, Some([header] + rest), accepts, commitError)
         == LoadHistoric(table, Some(rest), accepts, commitError)
  {
    ResolvesOnlyDepartments(table);
    HeaderRowFails(Zip(Headers(Departments), header), header);
    FailingFirstLine(Departments, accepts, header, rest);
  }

  /** A first line that does not coerce adds nothing to the records kept. */
  lemma FailingFirstLine(m: ModelDecl, accepts: Row -> bool, first: seq<string>, rest: seq<seq<string>>)
    requires Prepared(m.columns, accepts, Dict(Zip(Headers(m), first))).None?
    ensures Validated(m.columns, accepts, CsvData(m, [first] + rest)) == Validated(m.columns, accepts, CsvData(m, rest))
  {
    var item := Dict(Zip(Headers(m), first));
    assert CsvData(m, [first] + rest) == [] + [item] + CsvData(m, rest);
    DroppedItem(m.columns, accepts, [], item, CsvData(m, rest));
    assert [] + CsvData(m, rest) == CsvData(m, rest);
  }

  lemma HeaderRowFails(row: Row, header: seq<string>)
    requires header == ["id", "department"] && row == Zip(Headers(Departments), header)
    ensures "id" in row && row["id"] == Str("id")
    ensures CoerceValue(Departments.columns[0], row["id"]).Err?
    ensures forall accepts: Row -> bool :: Prepared(Departments.columns, accepts, Dict(row)).None?
  {
    HeaderRowId(row, header);
    assert ParseInt("id").None? by {
      assert !IsDigit('i');
    }
    CoerceRowMeaning(Departments.columns, row);
  }

  lemma HeaderRowId(row: Row, header: seq<string>)
    requires header == ["id", "department"] && row == Zip(Headers(Departments), header)
    ensures "id" in row && row["id"] == Str("id")
  {
    HeadersOfDepartments();
    assert Distinct(Headers(Departments));
    ZipValues(Headers(Departments), header);
  }
}
