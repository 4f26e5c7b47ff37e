/**
 * validate_and_prepare_records (app.py): every model column present in a
 * row is coerced in place according to its type, the row is handed to the
 * model's constructor, and a row that raises anywhere on the way is
 * dropped while the others are kept in their order.
 */
module Coercion {
  import opened Wrappers
  import opened Text
  import opened Values
  import opened Schema
  import opened Payload
  import DateTimes

  /**
   * The load path's coercion of one value. Integer, Float and Boolean
   * columns come first whatever their name; then a column whose name
   * contains `datetime`; then String columns; any other column is left
   * as it is.
   */
  function CoerceValue(c: Column, v: Value): (r: Result<Value, PyError>)
  {
    match c.kind
    case Integer => var i :- ToInt(v); Ok(Int(i))
    case Float => ToFloat(v)
    case Boolean => var i :- ToInt(v); Ok(Bool(i != 0))
    case _ =>
      if Contains(c.name, "datetime") then
        if !v.Str? then Err(TypeError)
        else match DateTimes.Normalise(v.s)
          case Some(t) => Ok(Str(t))
          case None => Err(ValueError)
      else if c.kind == String then Ok(Str(PyStr(v)))
      else Ok(v)
  }

  /** The coercion of a whole row, column by column in declaration order, stopping at the first error. */
  function CoerceRow(columns: seq<Column>, row: Row): Result<Row, PyError>
  {
    if columns == [] then Ok(row)
    else
      var c := columns[0];
      if c.name in row then
        var v :- CoerceValue(c, row[c.name]);
        CoerceRow(columns[1..], row[c.name := v])
      else CoerceRow(columns[1..], row)
  }

  /**
   * The record one payload item yields: the coerced row, if coercion
   * succeeds and the model's constructor (`accepts`) takes it. An item
   * that is not an object fails the `in` test or the keyword expansion.
   */
  function Prepared(columns: seq<Column>, accepts: Row -> bool, item: Body): Option<Row>
  {
    match item
    case Dict(row) =>
      (match CoerceRow(columns, row)
       case Ok(r) => if accepts(r) then Some(r) else None
       case Err(_) => None)
    case _ => None
  }

  /** The records kept from a list of items: the prepared ones, in order. */
  function Validated(columns: seq<Column>, accepts: Row -> bool, data: seq<Body>): seq<Row>
  {
    if data == [] then []
    else
      var last := Prepared(columns, accepts, data[|data| - 1]);
      Validated(columns, accepts, data[..|data| - 1]) + (if last.Some? then [last.value] else [])
  }

  /** Coerce the model's columns of `row` in place, as the inner loop does. */
  method PrepareRow(columns: seq<Column>, row: Row) returns (r: Result<Row, PyError>)
    ensures r == CoerceRow(columns, row)
  {
    var current := row;
    var i := 0;
    while i < |columns|
      invariant 0 <= i <= |columns|
      invariant CoerceRow(columns, row) == CoerceRow(columns[i..], current)
    {
      assert columns[i..][1..] == columns[i + 1..];
      var c := columns[i];
      if c.name in current {
        var v := CoerceValue(c, current[c.name]);
        if v.Err? {
          return Err(v.error);
        }
        current := current[c.name := v.value];
      }
      i := i + 1;
    }
    return Ok(current);
  }

  /**
   * The loop over the rows: a row that raises is dropped, the others are
   * appended in order. The second result, the error, is never set.
   */
  method ValidateAndPrepare(columns: seq<Column>, accepts: Row -> bool, data: seq<Body>)
    returns (records: seq<Row>, error: Option<string>)
    ensures records == Validated(columns, accepts, data)
    ensures error == None
  {
    records := [];
    var i := 0;
    while i < |data|
      invariant 0 <= i <= |data|
      invariant records == Validated(columns, accepts, data[..i])
    {
      assert data[..i + 1][..i] == data[..i];
      var item := data[i];
      if item.Dict? {
        var r := PrepareRow(columns, item.row);
        if r.Ok? && accepts(r.value) {
          records := records + [r.value];
        }
      }
      i := i + 1;
    }
    assert data[..|data|] == data;
    return records, None;
  }

  // ---------------------------------------------------------------------
  // Properties of one value
  // ---------------------------------------------------------------------

  /** A column whose text goes through date-time normalisation. */
  predicate IsDateTimeNamed(c: Column)
  {
    c.kind !in {Integer, ColumnKind.Float, Boolean} && Contains(c.name, "datetime")
  }

  /** Text in the form the load path stores date-times in: `YYYY-MM-DDTHH:MM:SS` and one `Z`. */
  predicate IsNormalisedText(s: string)
  {
    |s| == 20 && s[19] == 'Z' && 'Z' !in s[..19] && DateTimes.Normalise(s) == Some(s)
  }

  /** The shape a value has once the load path has coerced it for column `c`. */
  predicate Coerced(c: Column, v: Value)
  {
    match c.kind
    case Integer => v.Int?
    case Float => v.Float?
    case Boolean => v.Bool?
    case _ =>
      if Contains(c.name, "datetime") then v.Str? && IsNormalisedText(v.s)
      else if c.kind == String then v.Str?
      else true
  }

  /** When the coercion of a value succeeds, by the column's dispatch. */
  lemma CoerceValueSucceeds(c: Column, v: Value)
    ensures c.kind == Integer || c.kind == Boolean ==> (CoerceValue(c, v).Ok? <==> ToInt(v).Ok?)
    ensures c.kind == ColumnKind.Float ==> (CoerceValue(c, v).Ok? <==> ToFloat(v).Ok?)
    ensures IsDateTimeNamed(c) ==> (CoerceValue(c, v).Ok? <==> v.Str? && DateTimes.Normalise(v.s).Some?)
    ensures c.kind !in {Integer, ColumnKind.Float, Boolean} && !Contains(c.name, "datetime") ==> CoerceValue(c, v).Ok?
  {
  }

  /**
   * What a successful coercion yields: the value has the column's shape,
   * an integer column holds `int(v)`, a Boolean column `int(v) != 0`, a
   * String column `str(v)`, and a date-time column the ISO text of the
   * date-time `strptime` read, followed by `Z`.
   */
  lemma CoerceValueResult(c: Column, v: Value)
    requires CoerceValue(c, v).Ok?
    ensures Coerced(c, CoerceValue(c, v).value)
    ensures c.kind == Integer ==> CoerceValue(c, v).value == Int(ToInt(v).value)
    ensures c.kind == Boolean ==> CoerceValue(c, v).value == Bool(ToInt(v).value != 0)
    ensures IsDateTimeNamed(c) ==>
      var dt := DateTimes.Strptime(v.s, 'Z' in v.s).value;
      DateTimes.Valid(dt) && CoerceValue(c, v).value == Str(DateTimes.IsoFormat(dt) + "Z")
    ensures c.kind == String && !Contains(c.name, "datetime") ==> CoerceValue(c, v).value == Str(PyStr(v))
  {
    if IsDateTimeNamed(c) {
      DateTimes.NormaliseIsIdempotent(v.s);
    }
  }

  /** A value already in its column's shape is left as it is. */
  lemma CoercedIsFixed(c: Column, v: Value)
    requires Coerced(c, v)
    ensures CoerceValue(c, v) == Ok(v)
  {
  }

  /** Coercing a coerced value again changes nothing. */
  lemma CoerceValueIdempotent(c: Column, v: Value)
    requires CoerceValue(c, v).Ok?
    ensures CoerceValue(c, CoerceValue(c, v).value) == CoerceValue(c, v)
  {
    CoerceValueResult(c, v);
    CoercedIsFixed(c, CoerceValue(c, v).value);
  }

  /** A Boolean column takes `"1"` as true and `"0"` as false, and refuses `"true"`. */
  lemma BooleanFromText(c: Column)
    requires c.kind == Boolean
    ensures CoerceValue(c, Str("1")) == Ok(Bool(true))
    ensures CoerceValue(c, Str("0")) == Ok(Bool(false))
    ensures CoerceValue(c, Str("true")) == Err(ValueError)
  {
    assert ParseInt("1") == Some(1);
    assert ParseInt("0") == Some(0);
    assert !IsDigit('t');
  }

  // ---------------------------------------------------------------------
  // Properties of one row
  // ---------------------------------------------------------------------

  /** Every model column present in the row coerces without error. */
  predicate AllCoerce(columns: seq<Column>, row: Row)
  {
    forall i :: 0 <= i < |columns| && columns[i].name in row ==> CoerceValue(columns[i], row[columns[i].name]).Ok?
  }

  /**
   * `r` is `row` rewritten in place: the same keys, each model column
   * present replaced by its coercion, every other key untouched.
   */
  predicate RowCoerced(columns: seq<Column>, row: Row, r: Row)
  {
    && r.Keys == row.Keys
    && (forall i :: 0 <= i < |columns| && columns[i].name in row ==>
          CoerceValue(columns[i], row[columns[i].name]) == Ok(r[columns[i].name]))
    && (forall k :: k in row && k !in ColumnNames(columns) ==> r[k] == row[k])
  }

  /**
   * A row coerces exactly when each of its model columns does, and then
   * only those columns are rewritten: absent columns stay absent, extra
   * keys keep their values.
   */
  lemma {:induction false} CoerceRowMeaning(columns: seq<Column>, row: Row)
    requires DistinctNames(columns)
    ensures CoerceRow(columns, row).Ok? <==> AllCoerce(columns, row)
    ensures CoerceRow(columns, row).Ok? ==> RowCoerced(columns, row, CoerceRow(columns, row).value)
  {
    if columns != [] {
      var c, rest := columns[0], columns[1..];
      assert DistinctNames(rest) by {
        forall i, j | 0 <= i < j < |rest| ensures rest[i].name != rest[j].name {
          assert rest[i] == columns[i + 1] && rest[j] == columns[j + 1];
        }
      }
      assert forall j :: 0 <= j < |rest| ==> rest[j] == columns[j + 1];
      assert c.name !in ColumnNames(rest);
      if c.name in row {
        var v := CoerceValue(c, row[c.name]);
        if v.Ok? {
          var row' := row[c.name := v.value];
          CoerceRowMeaning(rest, row');
          CoerceRowStep(columns, row, v.value);
        }
      } else {
        CoerceRowMeaning(rest, row);
        CoerceRowSkip(columns, row);
      }
    }
  }

  lemma CoerceRowStep(columns: seq<Column>, row: Row, w: Value)
    requires DistinctNames(columns) && columns != [] && columns[0].name in row
    requires CoerceValue(columns[0], row[columns[0].name]) == Ok(w)
    requires forall j :: 0 <= j < |columns[1..]| ==> columns[1..][j] == columns[j + 1]
    requires columns[0].name !in ColumnNames(columns[1..])
    requires CoerceRow(columns[1..], row[columns[0].name := w]).Ok? <==> AllCoerce(columns[1..], row[columns[0].name := w])
    requires CoerceRow(columns[1..], row[columns[0].name := w]).Ok? ==>
      RowCoerced(columns[1..], row[columns[0].name := w], CoerceRow(columns[1..], row[columns[0].name := w]).value)
    ensures CoerceRow(columns, row).Ok? <==> AllCoerce(columns, row)
    ensures CoerceRow(columns, row).Ok? ==> RowCoerced(columns, row, CoerceRow(columns, row).value)
  {
    var c, rest, row' := columns[0], columns[1..], row[columns[0].name := w];
    assert CoerceRow(columns, row) == CoerceRow(rest, row');
    RestUnchanged(columns, row, w);
    StepAllCoerce(columns, row, w);
    if CoerceRow(rest, row').Ok? {
      StepRowCoerced(columns, row, w, CoerceRow(rest, row').value);
    }
  }

  /** Setting the first column's key to `w` changes nothing the other columns see. */
  predicate RestSeesSame(columns: seq<Column>, row: Row, w: Value)
    requires columns != []
  {
    var c, rest, row' := columns[0], columns[1..], row[columns[0].name := w];
    forall j :: 0 <= j < |rest| ==>
      && rest[j].name != c.name
      && (rest[j].name in row' <==> rest[j].name in row)
      && (rest[j].name in row ==> row'[rest[j].name] == row[rest[j].name])
  }

  /** Updating the first column's key leaves what the other columns see unchanged. */
  lemma RestUnchanged(columns: seq<Column>, row: Row, w: Value)
    requires DistinctNames(columns) && columns != []
    ensures RestSeesSame(columns, row, w)
  {
    var c, rest := columns[0], columns[1..];
    forall j | 0 <= j < |rest| ensures rest[j].name != c.name {
      assert rest[j] == columns[j + 1];
    }
  }

  lemma StepAllCoerce(columns: seq<Column>, row: Row, w: Value)
    requires columns != [] && columns[0].name in row
    requires CoerceValue(columns[0], row[columns[0].name]) == Ok(w)
    requires RestSeesSame(columns, row, w)
    ensures AllCoerce(columns[1..], row[columns[0].name := w]) <==> AllCoerce(columns, row)
  {
    var rest, row' := columns[1..], row[columns[0].name := w];
    if AllCoerce(rest, row') {
      forall i | 0 <= i < |columns| && columns[i].name in row
        ensures CoerceValue(columns[i], row[columns[i].name]).Ok?
      {
        if i > 0 {
          assert columns[i] == rest[i - 1];
        }
      }
    } else {
      var j :| 0 <= j < |rest| && rest[j].name in row' && !CoerceValue(rest[j], row'[rest[j].name]).Ok?;
      assert columns[j + 1] == rest[j];
    }
  }

  lemma StepRowCoerced(columns: seq<Column>, row: Row, w: Value, r: Row)
    requires columns != [] && columns[0].name in row
    requires CoerceValue(columns[0], row[columns[0].name]) == Ok(w)
    requires columns[0].name !in ColumnNames(columns[1..])
    requires ColumnNames(columns) == [columns[0].name] + ColumnNames(columns[1..])
    requires RestSeesSame(columns, row, w)
    requires RowCoerced(columns[1..], row[columns[0].name := w], r)
    ensures RowCoerced(columns, row, r)
  {
    var c, rest, row' := columns[0], columns[1..], row[columns[0].name := w];
    assert r[c.name] == w by {
      assert c.name in row' && c.name !in ColumnNames(rest);
    }
    forall i | 0 <= i < |columns| && columns[i].name in row
      ensures CoerceValue(columns[i], row[columns[i].name]) == Ok(r[columns[i].name])
    {
      if i > 0 {
        assert columns[i] == rest[i - 1];
      }
    }
    forall k | k in row && k !in ColumnNames(columns) ensures r[k] == row[k] {
      assert k != c.name;
    }
  }

  lemma CoerceRowSkip(columns: seq<Column>, row: Row)
    requires DistinctNames(columns) && columns != [] && columns[0].name !in row
    requires forall j :: 0 <= j < |columns[1..]| ==> columns[1..][j] == columns[j + 1]
    requires CoerceRow(columns[1..], row).Ok? <==> AllCoerce(columns[1..], row)
    requires CoerceRow(columns[1..], row).Ok? ==> RowCoerced(columns[1..], row, CoerceRow(columns[1..], row).value)
    ensures CoerceRow(columns, row).Ok? <==> AllCoerce(columns, row)
    ensures CoerceRow(columns, row).Ok? ==> RowCoerced(columns, row, CoerceRow(columns, row).value)
  {
    var rest := columns[1..];
    assert CoerceRow(columns, row) == CoerceRow(rest, row);
    if AllCoerce(rest, row) {
      forall i | 0 <= i < |columns| && columns[i].name in row
        ensures CoerceValue(columns[i], row[columns[i].name]).Ok?
      {
        assert i > 0;
        assert columns[i] == rest[i - 1];
      }
    } else {
      var j :| 0 <= j < |rest| && rest[j].name in row && !CoerceValue(rest[j], row[rest[j].name]).Ok?;
      assert columns[j + 1] == rest[j];
    }
    if CoerceRow(rest, row).Ok? {
      var r := CoerceRow(rest, row).value;
      forall i | 0 <= i < |columns| && columns[i].name in row
        ensures CoerceValue(columns[i], row[columns[i].name]) == Ok(r[columns[i].name])
      {
        assert i > 0;
        assert columns[i] == rest[i - 1];
      }
      forall k | k in row && k !in ColumnNames(columns) ensures r[k] == row[k] {
      }
    }
  }

  /** Coercing an already coerced row again leaves it as it is. */
  lemma CoerceRowIdempotent(columns: seq<Column>, row: Row)
    requires DistinctNames(columns)
    requires CoerceRow(columns, row).Ok?
    ensures CoerceRow(columns, CoerceRow(columns, row).value) == CoerceRow(columns, row)
  {
    var r := CoerceRow(columns, row).value;
    CoerceRowMeaning(columns, row);
    CoerceRowMeaning(columns, r);
    forall i | 0 <= i < |columns| && columns[i].name in r
      ensures CoerceValue(columns[i], r[columns[i].name]) == Ok(r[columns[i].name])
    {
      CoerceValueIdempotent(columns[i], row[columns[i].name]);
    }
    var r2 := CoerceRow(columns, r).value;
    assert forall k :: k in r ==> r2[k] == r[k];
    assert r2 == r;
  }

  // ---------------------------------------------------------------------
  // Properties of the row loop
  // ---------------------------------------------------------------------

  /** The positions of the items that yield a record, in increasing order. */
  function Kept(columns: seq<Column>, accepts: Row -> bool, data: seq<Body>): seq<nat>
  {
    if data == [] then []
    else
      var n := |data| - 1;
      Kept(columns, accepts, data[..n]) + (if Prepared(columns, accepts, data[n]).Some? then [n] else [])
  }

  /**
   * The records are exactly those of the items that prepare successfully,
   * in input order: the `k`-th record comes from the `k`-th such item, and
   * every other item is dropped.
   */
  lemma {:induction false} ValidatedAreKept(columns: seq<Column>, accepts: Row -> bool, data: seq<Body>)
    ensures var ks, rs := Kept(columns, accepts, data), Validated(columns, accepts, data);
      && |ks| == |rs| <= |data|
      && (forall k :: 0 <= k < |ks| ==> ks[k] < |data| && Prepared(columns, accepts, data[ks[k]]) == Some(rs[k]))
      && (forall k, l :: 0 <= k < l < |ks| ==> ks[k] < ks[l])
      && (forall i :: 0 <= i < |data| ==> (i in ks <==> Prepared(columns, accepts, data[i]).Some?))
  {
    KeptLength(columns, accepts, data);
    KeptPositions(columns, accepts, data);
    KeptIncreasing(columns, accepts, data);
    KeptExactly(columns, accepts, data);
  }

  lemma {:induction false} KeptLength(columns: seq<Column>, accepts: Row -> bool, data: seq<Body>)
    ensures |Kept(columns, accepts, data)| == |Validated(columns, accepts, data)| <= |data|
  {
    if data != [] {
      KeptLength(columns, accepts, data[..|data| - 1]);
    }
  }

  lemma {:induction false} KeptPositions(columns: seq<Column>, accepts: Row -> bool, data: seq<Body>)
    ensures var ks, rs := Kept(columns, accepts, data), Validated(columns, accepts, data);
      forall k :: 0 <= k < |ks| ==> k < |rs| && ks[k] < |data| && Prepared(columns, accepts, data[ks[k]]) == Some(rs[k])
  {
    if data != [] {
      var n := |data| - 1;
      var init := data[..n];
      KeptPositions(columns, accepts, init);
      KeptLength(columns, accepts, init);
      var ks0 := Kept(columns, accepts, init);
      assert forall k :: 0 <= k < |ks0| ==> data[ks0[k]] == init[ks0[k]];
    }
  }

  lemma {:induction false} KeptIncreasing(columns: seq<Column>, accepts: Row -> bool, data: seq<Body>)
    ensures forall k :: 0 <= k < |Kept(columns, accepts, data)| ==> Kept(columns, accepts, data)[k] < |data|
    ensures forall k, l :: 0 <= k < l < |Kept(columns, accepts, data)| ==>
      Kept(columns, accepts, data)[k] < Kept(columns, accepts, data)[l]
  {
    if data != [] {
      var n := |data| - 1;
      KeptIncreasing(columns, accepts, data[..n]);
      var ks0 := Kept(columns, accepts, data[..n]);
      var tail: seq<nat> := if Prepared(columns, accepts, data[n]).Some? then [n] else [];
      var ks := Kept(columns, accepts, data);
      assert ks == ks0 + tail;
      assert |data[..n]| == n;
      forall k | 0 <= k < |ks| ensures ks[k] < |data| && (k < |ks0| ==> ks[k] < n) {
        if k < |ks0| {
          assert ks[k] == ks0[k];
        }
      }
      forall k, l | 0 <= k < l < |ks| ensures ks[k] < ks[l] {
        if l < |ks0| {
          assert ks[k] == ks0[k] && ks[l] == ks0[l];
        }
      }
    }
  }

  lemma {:induction false} KeptExactly(columns: seq<Column>, accepts: Row -> bool, data: seq<Body>)
    ensures forall i :: 0 <= i < |data| ==> (i in Kept(columns, accepts, data) <==> Prepared(columns, accepts, data[i]).Some?)
  {
    if data != [] {
      var n := |data| - 1;
      var init := data[..n];
      KeptExactly(columns, accepts, init);
      KeptIncreasing(columns, accepts, init);
      var ks0 := Kept(columns, accepts, init);
      var tail: seq<nat> := if Prepared(columns, accepts, data[n]).Some? then [n] else [];
      assert Kept(columns, accepts, data) == ks0 + tail;
      assert forall k :: 0 <= k < |ks0| ==> ks0[k] < n;
      assert n !in ks0;
      assert forall i :: 0 <= i < n ==> data[i] == init[i];
    }
  }

  lemma {:induction false} ValidatedAppend(columns: seq<Column>, accepts: Row -> bool, a: seq<Body>, b: seq<Body>)
    ensures Validated(columns, accepts, a + b) == Validated(columns, accepts, a) + Validated(columns, accepts, b)
  {
    if b == [] {
      assert a + b == a;
    } else {
      var n := |b| - 1;
      assert (a + b)[..|a + b| - 1] == a + b[..n];
      ValidatedAppend(columns, accepts, a, b[..n]);
    }
  }

  /** An item that fails is simply skipped: the records are those of the other items. */
  lemma DroppedItem(columns: seq<Column>, accepts: Row -> bool, a: seq<Body>, item: Body, b: seq<Body>)
    requires Prepared(columns, accepts, item).None?
    ensures Validated(columns, accepts, a + [item] + b) == Validated(columns, accepts, a + b)
  {
    ValidatedAppend(columns, accepts, a + [item], b);
    ValidatedAppend(columns, accepts, a, [item]);
    ValidatedAppend(columns, accepts, a, b);
    assert [item][..0] == [];
  }

  /** Every record kept is a coerced row in its model's shape, so validating the records again keeps them all. */
  lemma ValidatedAgain(columns: seq<Column>, accepts: Row -> bool, data: seq<Body>)
    requires DistinctNames(columns)
    ensures var rs := Validated(columns, accepts, data);
      Validated(columns, accepts, seq(|rs|, k requires 0 <= k < |rs| => Dict(rs[k]))) == rs
  {
    var rs := Validated(columns, accepts, data);
    ValidatedAreKept(columns, accepts, data);
    var again := seq(|rs|, k requires 0 <= k < |rs| => Dict(rs[k]));
    forall k | 0 <= k < |rs| ensures Prepared(columns, accepts, again[k]) == Some(rs[k]) {
      var ks := Kept(columns, accepts, data);
      var row := data[ks[k]].row;
      CoerceRowIdempotent(columns, row);
    }
    AllPrepared(columns, accepts, again, rs);
  }

  lemma {:induction false} AllPrepared(columns: seq<Column>, accepts: Row -> bool, data: seq<Body>, rs: seq<Row>)
    requires |data| == |rs|
    requires forall k :: 0 <= k < |data| ==> Prepared(columns, accepts, data[k]) == Some(rs[k])
    ensures Validated(columns, accepts, data) == rs
  {
    if data != [] {
      var n := |data| - 1;
      AllPrepared(columns, accepts, data[..n], rs[..n]);
      assert rs[..n] + [rs[n]] == rs;
    }
  }
}
