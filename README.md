# employee_db record pipeline, in Dafny

This project models the record pipeline of the `employee_db` migration service (`app.py`). The service loads employee data into three MySQL tables: `departments`, `jobs` and `hired_employees`. It also backs each table up to an Avro file and restores it from that file. The model covers the logic between the HTTP request and the database:

- **Model lookup.** The class name is derived from the table name, and a table resolves only when that name equals the class its model module declares. The three model modules under `globant/models` become a constant registry (`Schema`).
- **Headers and storage paths.** The headers are the model's column names in declaration order. The historic CSV path and the backup path are built from the table name (`Schema`).
- **Payload checks.** A JSON object stands for a one-record list. Any other non-list is refused, and so is a list of more than 1000 records (`Payload`).
- **CSV rows.** Each CSV line is zipped with the headers (`Load`).
- **`validate_and_prepare_records`.** Each row is rewritten column by column in the source's dispatch order: Integer, Float, Boolean, then a column whose *name* contains `datetime`, then String. A row whose coercion or construction fails is dropped silently. The rows kept are returned in input order (`Coercion`). The loops are methods, each proved equal to a specification function.
- **Backup.** The Avro schema is derived from the column types, and each database record is mapped to an Avro record (`Backup`).
- **Restore.** Restore applies a second, different coercion to every Avro record, and the whole restore fails on the first bad record (`Restore`).
- **Python semantics.** The Python built-ins these steps rely on are modelled: `int()`, `float()`, `bool()`, `str()`, `str.capitalize`, `str.split`, `str.replace`, `datetime.strptime` with the two formats the loader uses, `datetime.isoformat`, `str(datetime)` and `datetime.fromisoformat` (`Text`, `Values`, `DateTimes`).

Each endpoint is a function from the request and its environment to a reply and an effect:

- The reply is the JSON message and status code (`Replies`).
- The effect is the rows committed, the rows saved, or the files in the bucket afterwards.
- The model's constructor `Model(**row)` is a parameter `accepts: Row -> bool`.
- The outcome of the database commit, and of writing the backup, is an `Option<string>` parameter. For the backup it covers both fastavro's encoding failures inside `fastavro.writer` (a `None` in a non-nullable field, an integer beyond 32 bits) and the upload's failures.
- The downloaded CSV file is a parameter holding its parsed lines.

What the proofs establish:
- Only `departments` resolves. `jobs` derives `Jobs` where the model declares `Job`, and `hired_employees` derives `HiredEmployees` where it declares `HiredEmployee`.
- Date-time normalisation accepts every text written in either format. It pads every field and ends the text with one `Z`, and it is idempotent.
- The rows the loader keeps are exactly the rows that coerce and construct, in input order. Dropping a row changes nothing else.
- Backup and restore use the same path. Restoring a backup of well-typed rows gives back exactly those rows.
- A restore of the one table that resolves never raises an AttributeError, so it is never answered "Unknown table" (`Restore.ResolvedRestoreNeverUnknown`).
- The two coercions disagree. A Boolean `"0"` loads as false and restores as true.

Behaviour of the code that is easy to misread:

- **Row failures.** A row that fails coercion is dropped and the other rows are committed. The loader never aborts the batch and never reports a row error; its error result is always `None`.
- **CSV header line.** The first CSV line is not skipped. It is read as data, so a header line fails the `id` coercion and is dropped (`Load.HeaderLineIsDropped`).
- **Date-time dispatch.** The loader picks the date-time coercion by column *name*, after the Integer, Float and Boolean checks, not by column type.
- **Restore coercion.** Restore does not reuse the load coercion:
  - Boolean values go through `bool()` with no integer step.
  - String values are stored unchanged.
  - Date-time text loses *every* `Z` before `fromisoformat`, not only a trailing zone marker.
- **Unknown tables.** An unknown table is not rejected with a clean 400. The lookup's error path returns a `(response, 400)` tuple, which the callers unpack as `(Model, headers)`. The model follows what each endpoint then does:
  - **Payload load:** every row fails on the response object and is dropped, and the empty commit answers 200 "Data successfully loaded".
  - **CSV load:** zipping a line with the integer `400` raises an uncaught TypeError (a 500), unless the file is empty.
  - **Backup:** querying the response object raises an ArgumentError, so the reply is a 500 "An error occurred".
  - **Restore:** the first record raises an AttributeError, answered with the 400 "Unknown table". An empty backup is "restored" with a 200.
  - Since `jobs` and `hired_employees` never resolve, this is the behaviour for two of the three tables (`Restore.OnlyDepartmentsIsServed`).

## Model

| member | source | states |
|---|---|---|
| Text.Capitalize | app.py:50 | definition of `str.capitalize`; characterised by `Text.CapitalizeIgnoringCase` |
| Text.Split | app.py:51 | definition of `str.split('_')`; characterised by `Text.ConcatSplit` and `Text.SplitWithoutSeparator` |
| Text.Remove | app.py:226-227 | definition of `str.replace("Z", "")`; characterised by `Text.RemoveAbsent` and `Text.RemoveAppend` |
| Text.ParseInt | app.py:72-73 | definition of `int()` on text; characterised by `Text.IntText` and `Values.ToIntRejects` |
| Text.IntText | app.py:88 | `str()` of an integer is text that `int()` reads back as the same integer |
| Text.CapitalizeIgnoringCase | app.py:50 | `str.capitalize` changes only letter case |
| Text.ConcatSplit | app.py:50-51 | joining the pieces of `split('_')` is the table name with every `_` removed |
| Text.SplitWithoutSeparator | app.py:51 | a name without `_` splits into itself alone |
| Text.RemoveAbsent | app.py:226-227 | `replace("Z", "")` leaves text without a `Z` unchanged |
| Text.RemoveAppend | app.py:226-227 | removing `Z` from a concatenation removes it from each part |
| Values.ToInt | app.py:72-73 | definition of `int()`; characterised by `Values.IntTextRoundTrip`, `Values.ToIntTruncates` and `Values.ToIntRejects` |
| Values.ParseDecimal | app.py:74-75 | definition of `float()` on text; characterised by `Values.ToFloat` |
| Values.Truthy | app.py:224 | definition of `bool()`; characterised by `Restore.BooleanLoadAndRestoreDisagree` and `Restore.RestoreOfNull` |
| Values.PyStr | app.py:88 | definition of `str()`; characterised by `Values.IntTextRoundTrip`, `DateTimes.NoZInDateText` and `Backup.AvroValueIsPlain` |
| Values.IntTextRoundTrip | app.py:72-73 | `int(str(i)) == i` for every integer |
| Values.ToIntTruncates | app.py:72-73 | `int()` of a float truncates toward zero: the result is the largest multiple below (for positives) or the smallest above (for negatives) |
| Values.ToIntRejects | app.py:72-73 | `int()` succeeds exactly on booleans, integers, floats and signed decimal digit strings; it fails on `None`, other text, date-times and other objects |
| Values.ToFloat | app.py:74-75 | a successful `float()` always gives a float |
| Values.ToFloatOfInteger | app.py:74-75 | `float()` of an integer or boolean is that integer as a float |
| DateTimes.Valid | app.py:80-85 | definition of the `datetime` range checks; characterised by `DateTimes.FieldsValue` |
| DateTimes.Strptime | app.py:80-85 | definition of `datetime.strptime` with the two formats; characterised by `DateTimes.StrptimeReadsIsoFormat` and `DateTimes.StrptimeOfPieces` |
| DateTimes.Normalise | app.py:79-86 | definition of the loader's date-time branch; characterised by `DateTimes.NormaliseIsoFormat` and `DateTimes.NormaliseIsIdempotent` |
| DateTimes.IsoFormat | app.py:82 | definition of `isoformat()`; characterised by `DateTimes.SplitIsoFormat`, `DateTimes.NoZInIsoFormat` and `DateTimes.DateTextLength` |
| DateTimes.StrText | app.py:180 | definition of `str()` of a date-time; characterised by `DateTimes.NoZInDateText` and `DateTimes.DateTextLength` |
| DateTimes.FromIsoFormat | app.py:226-227 | definition of `datetime.fromisoformat`; characterised by `DateTimes.FromIsoFormatReadsDateText` and `DateTimes.RestoreReadsNormalised` |
| DateTimes.FieldsValue | app.py:80-81 | a parsed date-time is accepted only when it is a real calendar date and time of day |
| DateTimes.StrptimeReadsIsoFormat | app.py:80-85 | both strptime formats read back every valid date-time's padded ISO text (with `Z` for the second) |
| DateTimes.StrptimeOfPieces | app.py:79-85 | text made of digit fields and the format's separators parses to the date-time of those fields, and it contains `Z` exactly when the `Z` format applies |
| DateTimes.SplitIsoFormat | app.py:80-85 | the ISO text of a date-time splits into its zero-padded fields |
| DateTimes.NoZInIsoFormat | app.py:82 | `isoformat()` never contains `Z` |
| DateTimes.NoZInDateText | app.py:180 | `str()` of a date-time never contains `Z` |
| DateTimes.DateTextLength | app.py:82 | `isoformat()` and `str()` of a date-time are 19 characters |
| DateTimes.NormaliseIsoFormat | app.py:79-86 | a valid date-time's ISO text, with or without `Z`, normalises to the ISO text with one `Z` |
| DateTimes.NormaliseIsIdempotent | app.py:79-86 | a normalised value is 20 characters, has its only `Z` at the end, and normalises to itself |
| DateTimes.NormaliseExamples | app.py:79-86 | `2024-01-05T10:00:00` and `2024-01-05T10:00:00Z` both give `2024-01-05T10:00:00Z` |
| DateTimes.NormalisePads | app.py:80-82 | unpadded fields (`2024-1-5T9:0:0`) are accepted and come out zero padded |
| DateTimes.NormaliseRejectsImpossibleDate | app.py:80-81 | 29 February of a common year is refused |
| DateTimes.FromIsoFormatReadsDateText | app.py:226-227 | `fromisoformat` reads back `isoformat()` and `str()` of every valid date-time |
| DateTimes.RestoreReadsNormalised | app.py:226-227 | the restore path reads a loader-normalised value back as the same date-time |
| DateTimes.LoadThenRestoreAgree | app.py:226-227 | for every text the loader accepts, restoring its normalised form gives the date-time the loader parsed |
| Schema.Headers | app.py:52 | definition of `headers`; characterised by `Schema.ColumnNames` |
| Schema.ClassName | app.py:50-51 | definition of the derived class name; characterised by `Schema.ClassNameIgnoringCase` and `Schema.ClassNameLength` |
| Schema.Lookup | app.py:46-59 | definition of the model lookup; characterised by `Schema.LookupCandidates` and `Schema.ResolvesOnlyDepartments` |
| Schema.HistoricPath | app.py:100 | definition of the historic CSV path; characterised by `Schema.PathsInjective` and `Schema.BackupNotHistoric` |
| Schema.BackupPath | app.py:186 | definition of the backup path, the one `restore_backup_from_avro` reads (line 204); characterised by `Schema.PathsInjective` and `Restore.BackupThenRestore` |
| Schema.ColumnNames | app.py:52 | the headers are the column names, one per column, in declaration order |
| Schema.HeadersOfDepartments | app.py:52 | the headers of `departments` are `id`, `department` |
| Schema.ModuleNamed | app.py:48-49 | the module found is a registry entry with that name, and no entry has the name when none is found |
| Schema.LowerConcatCapitalized | app.py:50-51 | capitalising the words before joining them changes only letter case |
| Schema.ClassNameIgnoringCase | app.py:50-51 | the derived class name is the table name without `_`, up to letter case |
| Schema.ClassNameLength | app.py:50-51 | the derived class name is as long as the table name without its `_` |
| Schema.ClassNameOfWord | app.py:50-51 | a one-word table name derives its capitalised self |
| Schema.ClassNameOfDepartments | globant/models/departments.py:8 | `departments` derives `Departments`, the declared class |
| Schema.LookupCandidates | app.py:48-51 | a resolved model is the registry entry of that module whose class is the derived name; names outside the registry never resolve |
| Schema.ResolvesOnlyDepartments | app.py:48-51 | a table resolves exactly when it is `departments`, and then to the `departments` model |
| Schema.DepartmentsResolves | globant/models/departments.py:8-12 | `departments` resolves to its declared model |
| Schema.JobsDoesNotResolve | globant/models/jobs.py:8 | `jobs` does not resolve: it derives `Jobs`, the module declares `Job` |
| Schema.HiredEmployeesDoesNotResolve | globant/models/hired_employees.py:8 | `hired_employees` does not resolve: it derives `HiredEmployees`, the module declares `HiredEmployee` |
| Schema.RegistryNamesDistinct | globant/models/hired_employees.py:10-14 | no declared model has two columns of the same name |
| Schema.PathsInjective | app.py:100 | distinct tables have distinct historic paths and distinct backup paths |
| Schema.BackupNotHistoric | app.py:186 | no backup path is ever a historic CSV path |
| Payload.PayloadRecords | app.py:128-134 | definition of the body checks; characterised by `Payload.PayloadRecordsMeaning` |
| Payload.PayloadRecordsMeaning | app.py:128-134 | a body is accepted exactly when it is an object or a list of at most 1000 records; an object becomes a one-record list; every refusal is the matching 400 |
| Payload.DictIsSingletonList | app.py:129-130 | one object is treated like a list holding only it |
| Coercion.CoerceValue | app.py:72-88 | definition of one column's coercion; characterised by `Coercion.CoerceValueSucceeds` and `Coercion.CoerceValueResult` |
| Coercion.CoerceRow | app.py:68-88 | definition of the column loop; characterised by `Coercion.CoerceRowMeaning` and `Coercion.PrepareRow` |
| Coercion.Prepared | app.py:67-92 | definition of one item's outcome: coerced and constructed, or dropped; characterised by `Coercion.ValidatedAreKept` |
| Coercion.Validated | app.py:62-93 | definition of `validate_and_prepare_records`; characterised by `Coercion.ValidateAndPrepare` and `Coercion.ValidatedAreKept` |
| Coercion.PrepareRow | app.py:68-88 | the column loop computes the row coercion, stopping at the first failing column |
| Coercion.ValidateAndPrepare | app.py:62-93 | the row loop returns exactly the rows that coerce and construct, in order, and the error result is always `None` |
| Coercion.CoerceValueSucceeds | app.py:72-88 | by dispatch: Integer and Boolean columns succeed exactly when `int()` does, Float when `float()` does, a `datetime`-named column exactly on text that normalises, any other column always |
| Coercion.CoerceValueResult | app.py:72-88 | an Integer becomes `int(v)`, a Boolean `int(v) != 0`, a `datetime`-named column the parsed date-time's ISO text plus `Z`, a String `str(v)` |
| Coercion.CoercedIsFixed | app.py:72-88 | a value already of its column's coerced form is left unchanged |
| Coercion.CoerceValueIdempotent | app.py:72-88 | coercing a coerced value again gives the same value |
| Coercion.BooleanFromText | app.py:76-77 | a Boolean column reads `"1"` as true and `"0"` as false, and refuses `"true"` |
| Coercion.CoerceRowMeaning | app.py:68-88 | a row coerces exactly when each model column present does; then present columns are replaced by their coercion, absent ones stay absent, other keys are untouched |
| Coercion.CoerceRowIdempotent | app.py:68-88 | coercing a coerced row again changes nothing |
| Coercion.ValidatedAreKept | app.py:66-93 | the records returned are, in increasing input position, exactly the rows that coerce and construct, each row's own record |
| Coercion.ValidatedAppend | app.py:66-90 | validating two batches one after the other gives the two results concatenated |
| Coercion.DroppedItem | app.py:91-92 | a failing row is dropped without affecting any other row |
| Coercion.ValidatedAgain | app.py:66-93 | validating the returned records again returns them unchanged |
| Coercion.AllPrepared | app.py:66-90 | when every row succeeds, the result is every row's record in order |
| Load.Zip | app.py:104 | definition of `dict(zip(headers, row))`; characterised by `Load.ZipFields` |
| Load.Commit | app.py:111-120 | definition of the add-and-commit step; characterised by `Load.PayloadAllOrNothing` and `Load.HistoricAllOrNothing` |
| Load.LoadFromPayload | app.py:126-150 | definition of `load_data_from_payload`; characterised by `Load.PayloadChecksComeFirst`, `Load.NoRowErrorsReported` and `Load.PayloadAllOrNothing` |
| Load.PayloadLoadResolved | app.py:126-150 | definition of the payload handler for any answer of the lookup; characterised by `Load.PayloadLoadOutcomes` |
| Load.LoadHistoric | app.py:97-122 | definition of `load_historic_csv_data_to_db`; characterised by `Load.HistoricAllOrNothing` and `Load.HeaderLineIsDropped` |
| Load.HistoricLoadResolved | app.py:97-122 | definition of the CSV handler for any answer of the lookup; characterised by `Load.HistoricLoadOutcomes` |
| Load.CsvData | app.py:104 | one row per CSV line, the first line included, each line zipped with the headers |
| Load.ZipFields | app.py:104 | a zipped row maps header `i` to field `i` for every `i` below the shorter length, and holds nothing else |
| Load.PayloadChecksComeFirst | app.py:128-135 | a refused body gets its 400 before any lookup, whatever the table, and nothing is committed |
| Load.NoRowErrorsReported | app.py:136-144 | an accepted body never gets a 400: the reply is success exactly when the commit goes through, and nothing is committed for a table that does not resolve |
| Load.PayloadAllOrNothing | app.py:140-148 | either every validated record is committed with the success reply, or nothing is committed |
| Load.PayloadLoadOutcomes | app.py:126-148 | for any answer of the lookup: a refused body is its 400, an accepted one never a 400, and the commit is all or nothing; nothing is committed when the lookup fails |
| Load.HistoricAllOrNothing | app.py:97-120 | the same for the CSV load, and a CSV with any line for a table that does not resolve is a 500 |
| Load.HistoricLoadOutcomes | app.py:97-120 | for any answer of the lookup, the CSV load commits all validated records with the success reply or nothing; a failed lookup commits nothing and is a 500 once there is a line |
| Load.HeaderLineIsDropped | app.py:101-104 | a `departments` CSV starting with the line `id,department` loads exactly as without it |
| Backup.FieldType | app.py:164-169 | definition of an Avro field's type from the column's Python type; characterised by `Backup.SchemaFields` |
| Backup.SchemaOf | app.py:161-171 | definition of the Avro schema; characterised by `Backup.SchemaFields` and `Backup.BackupFitsSchema` |
| Backup.AvroValue | app.py:177-180 | definition of one Avro value; characterised by `Backup.AvroValueIsPlain` and `Restore.RestoreValueOfBackup` |
| Backup.AvroRecordOf | app.py:174-181 | definition of one Avro record; characterised by `Backup.AvroRecordFields` and `Backup.ToAvroRecord` |
| Backup.BackupTable | app.py:154-196 | definition of `backup_table_to_avro`; characterised by `Backup.BackupWritesOnlyItsPath` |
| Backup.BackupResolved | app.py:154-196 | definition of the backup handler for any answer of the lookup; characterised by `Backup.BackupResolvedWrites` |
| Backup.SchemaFields | app.py:161-171 | one Avro field per column, in column order, typed from the column's Python type |
| Backup.AvroRecords | app.py:172-181 | one Avro record per database record, in order |
| Backup.ToAvroRecord | app.py:174-181 | the header loop builds the record's Avro record |
| Backup.ToAvroRecords | app.py:172-181 | the record loop builds every Avro record in order |
| Backup.AvroRecordFields | app.py:174-181 | an Avro record holds exactly the headers, each mapped from the attribute of that name |
| Backup.AvroValueIsPlain | app.py:177-180 | every Avro value is a number, boolean, `None` or text; a date-time is written as `str()`; mapping twice changes nothing |
| Backup.BackupFitsSchema | app.py:161-181 | a well-typed record's Avro record has every schema field, each with a value of the field's type |
| Backup.BackupWritesOnlyItsPath | app.py:157-188 | a backup is created exactly for a resolving, non-empty table with a successful write; it writes only the table's backup path; an empty table is a 404 |
| Backup.BackupResolvedWrites | app.py:157-188 | for any answer of the lookup: a failed lookup is a 500 that writes nothing; otherwise as for `BackupWritesOnlyItsPath` |
| Restore.RestoreValue | app.py:219-229 | definition of the restore coercion of one value; characterised by `Restore.RestoreValueOfBackup`, `Restore.RestoreOfNull` and `Restore.BooleanLoadAndRestoreDisagree` |
| Restore.RestoreRow | app.py:214-229 | definition of the column loop; characterised by `Restore.RestoreRowMeaning` and `Restore.RestoreRecordLoop` |
| Restore.RestoreRecord | app.py:213-230 | definition of one record's row; characterised by `Restore.RestoreRecordOfBackup` and `Restore.RestoreRecordLoop` |
| Restore.RestoreAll | app.py:211-231 | definition of the record loop; characterised by `Restore.RestoreAllLoop`, `Restore.RestoreAllStops` and `Restore.RestoredInOrder` |
| Restore.RestoreTable | app.py:200-243 | definition of `restore_backup_from_avro`; characterised by `Restore.RestoreAllOrNothing` and `Restore.ResolvedRestoreNeverUnknown` |
| Restore.RestoreResolved | app.py:200-243 | definition of the restore handler for any answer of the lookup; characterised by `Restore.RestoreOutcomes` |
| Restore.RestoreRecordLoop | app.py:214-230 | the column loop builds the record's row or raises the first error |
| Restore.RestoreAllLoop | app.py:211-231 | the record loop restores every record in order or fails with the first error |
| Restore.RestoreAllStops | app.py:213-231 | once a record fails, the whole restore fails with its error |
| Restore.RestoreRowMeaning | app.py:214-229 | a record restores exactly when each model column present does; the row holds those columns and drops every other key |
| Restore.RestoreValueOfBackup | app.py:218-229 | the Avro value of any well-typed value restores to the value itself |
| Restore.RestoreRecordOfBackup | app.py:213-229 | the Avro record of a well-typed record restores to the record itself |
| Restore.RestoreAllOfBackup | app.py:211-231 | the Avro records of well-typed, accepted rows restore to the rows, in order |
| Restore.RestoredInOrder | app.py:211-231 | when every record restores on its own, the whole restore gives those rows in order |
| Restore.BackupThenRestore | app.py:200-238 | a successful backup followed by a successful restore of the same table saves exactly the rows backed up |
| Restore.RestoreAllOrNothing | app.py:203-241 | a missing file is a 404 whatever the table; otherwise either every record is saved with the success reply or nothing is |
| Restore.RestoreOutcomes | app.py:203-241 | for any answer of the lookup: a missing file is a 404; a failed lookup saves nothing and refuses a non-empty backup as an unknown table; for a resolved model the reply is that 400 exactly when the records raise an AttributeError; otherwise all or nothing |
| Restore.BooleanLoadAndRestoreDisagree | app.py:223-224 | a Boolean `"0"` restores as true although it loads as false; `"true"` restores though it does not load |
| Restore.RestoreOfNull | app.py:218-229 | a `None` fails an Integer or Float column, is false in a Boolean column, stays `None` in a String column, and raises an AttributeError in a DateTime column |
| Restore.RestoreRowNoAttributeError | app.py:219-229 | without a date-time column, building a row never raises an AttributeError |
| Restore.RestoreAllNoAttributeError | app.py:211-231 | without a date-time column, no record and so no restore raises an AttributeError |
| Restore.RestoreResolvedNeverUnknown | app.py:232-237 | a resolved model without a date-time column is never answered "Unknown table" |
| Restore.ResolvedHasNoDateTime | globant/models/departments.py:8-12 | the one table that resolves has no date-time column |
| Restore.ResolvedRestoreNeverUnknown | app.py:225-237 | for every table that resolves, no backup restores to an AttributeError, so its restore is never answered "Unknown table"; that 400 is reached only for a table that does not resolve |
| Restore.OnlyDepartmentsIsServed | app.py:55-59 | for any table but `departments`, no endpoint stores anything; a payload load still reports success, a CSV load with lines and a backup are 500s, a non-empty restore is "Unknown table" |

## Left out

- Flask routing, `jsonify` and the other endpoints are not modelled: the index page, `/run-migration` (an external `alembic` process) and the two reporting endpoints, whose logic is SQL text run by MySQL. `globant/list_tables.py` and the Alembic revision are out too.
- Google Cloud Storage is a map from path to file. Downloads, `exists`, and the failures of encoding and uploading a backup are parameters. The CSV text is given as its parsed lines; `csv.reader` quoting and UTF-8 decoding are not modelled.
- SQLAlchemy sessions are reduced to "every record committed or none". `add`, `bulk_save_objects`, `rollback` and `close` are not modelled, and neither is the query: the backup is given the table's rows.
- The model's constructor `Model(**row)` is the parameter `accepts`. Its refusal of unknown keys and its column checks are library behaviour.
- `importlib` is replaced by the constant registry of the three model modules.
- fastavro's binary encoding is not modelled: a backup file is its schema and its records as values. Avro's 32-bit `int` range is not checked.
- Values.ToFloat: floats are exact decimals (`units / 10^scale`). IEEE rounding, exponent notation, `inf` and `nan` are not modelled, and `str()` of a float is written in positional notation only. `float()` of text accepts an optional sign and ASCII digits with at most one decimal point; Python's leniency (surrounding whitespace, `_` separators between digits) is not modelled. No declared column is a Float.
- Values.ToIntRejects: `int()` of text accepts an optional sign and ASCII decimal digits only. Python's leniency (surrounding whitespace, `_` separators, other Unicode decimal digits such as fullwidth ones) is not modelled.
- DateTimes.StrptimeOfPieces: `strptime` fields are ASCII digits only; `\d` in a str pattern also matches other Unicode decimal digits, which the model refuses. The lemmas show that every text in either format is accepted; that nothing else is accepted is not stated as a lemma.
- DateTimes.FromIsoFormatReadsDateText: `fromisoformat` is modelled on the Python 3.7–3.10 form: a date, any one separator, and `HH[:MM[:SS]]`. Fractional seconds and UTC offsets are not modelled.
- Exception messages are not modelled. A reply that carries one (`Failed`, `CommitFailed`) holds the exception's name or the parameter's text.
- `str()` of an object other than a number, text or date-time is an opaque `Other` text.
- Logging to stdout and stderr is not modelled.
- The `Model is None` branch of `validate_and_prepare_records` is not modelled, because no caller can reach it.
