/**
 * The Python values that travel through the pipeline: what a JSON payload,
 * a CSV cell, a database attribute or an Avro field can hold, and the
 * built-ins the pipeline applies to them -- `int(v)`, `float(v)`, `bool(v)`
 * and `str(v)`.
 */
module Values {
  import opened Wrappers
  import opened Text
  import DateTimes

  /**
   * A Python value. `Float(units, scale)` is the decimal number
   * `units / 10^scale` (JSON and CSV give floats as decimal text; binary
   * rounding is not modelled). `Other` is anything else a JSON payload can
   * hold (a nested list or object), known only by its `str` text and its
   * truth value.
   */
  datatype Value =
    | Null
    | Bool(b: bool)
    | Int(i: int)
    | Float(units: int, scale: nat)
    | Str(s: string)
    | DateTime(dt: DateTimes.DateTime)
    | Other(text: string, truthy: bool)

  /** The exceptions the coercions raise. */
  datatype PyError = TypeError | ValueError | AttributeError

  /** A row of named values, as a Python dict from column name to value. */
  type Row = map<string, Value>

  /** `int(v)`: booleans are 0 or 1, floats are truncated toward zero, text must be an integer literal. */
  function ToInt(v: Value): Result<int, PyError>
  {
    match v
    case Null => Err(TypeError)
    case Bool(b) => Ok(if b then 1 else 0)
    case Int(i) => Ok(i)
    case Float(u, sc) => Ok(if u >= 0 then u / Pow10(sc) else -((-u) / Pow10(sc)))
    case Str(s) => (match ParseInt(s) case Some(i) => Ok(i) case None => Err(ValueError))
    case DateTime(_) => Err(TypeError)
    case Other(_, _) => Err(TypeError)
  }

  /** Position of the first `c` in `s`, or `|s|` when there is none. */
  function Find(s: string, c: char): (k: nat)
    ensures k <= |s| && c !in s[..k]
    ensures k < |s| ==> s[k] == c
  {
    if s == [] then 0
    else if s[0] == c then 0
    else
      var k := 1 + Find(s[1..], c);
      assert s[..k] == [s[0]] + s[1..][..k - 1];
      k
  }

  /**
   * `float(s)` for decimal text: an optional sign, then digits with at most
   * one decimal point and at least one digit. Exponents, `inf`, `nan` and
   * surrounding whitespace are not modelled.
   */
  function ParseDecimal(s: string): Option<(int, nat)>
  {
    var signed := |s| > 0 && (s[0] == '+' || s[0] == '-');
    var body := if signed then s[1..] else s;
    var k := Find(body, '.');
    var whole := body[..k];
    var frac := if k < |body| then body[k + 1..] else "";
    if |whole| + |frac| >= 1 && AllDigits(whole) && AllDigits(frac) then
      var n: int := DigitsValue(whole) * Pow10(|frac|) + DigitsValue(frac);
      Some((if signed && s[0] == '-' then -n else n, |frac|))
    else None
  }

  /** `float(v)`. */
  function ToFloat(v: Value): (r: Result<Value, PyError>)
    ensures r.Ok? ==> r.value.Float?
  {
    match v
    case Null => Err(TypeError)
    case Bool(b) => Ok(Float(if b then 1 else 0, 0))
    case Int(i) => Ok(Float(i, 0))
    case Float(_, _) => Ok(v)
    case Str(s) => (match ParseDecimal(s) case Some(d) => Ok(Float(d.0, d.1)) case None => Err(ValueError))
    case DateTime(_) => Err(TypeError)
    case Other(_, _) => Err(TypeError)
  }

  /** `bool(v)`: Python truthiness. */
  predicate Truthy(v: Value)
  {
    match v
    case Null => false
    case Bool(b) => b
    case Int(i) => i != 0
    case Float(u, _) => u != 0
    case Str(s) => s != []
    case DateTime(_) => true
    case Other(_, t) => t
  }

  /** `d` without its trailing zeros, but never empty: the fractional digits `repr` prints. */
  function TrimZeros(d: string): (r: string)
    ensures |r| >= 1 || d == []
    ensures |r| <= |d| || d == []
  {
    if d == [] then "0"
    else if |d| > 1 && d[|d| - 1] == '0' then TrimZeros(d[..|d| - 1])
    else d
  }

  /** `repr` of a float with a short decimal expansion: `1.5`, `-2.0`. */
  function FloatText(units: int, scale: nat): string
  {
    var n: nat := if units < 0 then -units else units;
    var p := Pow10(scale);
    DivBounds(n, p);
    var whole: nat := n / p;
    var rest: nat := n % p;
    var frac := if scale == 0 then "0" else TrimZeros(FixedDigits(rest, scale));
    (if units < 0 then "-" else "") + NatText(whole) + "." + frac
  }

  /** `str(v)`. */
  function PyStr(v: Value): string
  {
    match v
    case Null => "None"
    case Bool(b) => if b then "True" else "False"
    case Int(i) => IntText(i)
    case Float(u, sc) => FloatText(u, sc)
    case Str(s) => s
    case DateTime(dt) => DateTimes.StrText(dt)
    case Other(t, _) => t
  }

  // ---------------------------------------------------------------------
  // Properties
  // ---------------------------------------------------------------------

  /** `int(str(i)) == i`: the text an integer is written as reads back as that integer. */
  lemma IntTextRoundTrip(i: int)
    ensures ToInt(Str(PyStr(Int(i)))) == Ok(i)
  {
  }

  /** `int(x)` of a float drops the fraction and keeps the sign: truncation toward zero. */
  lemma ToIntTruncates(units: int, scale: nat)
    ensures var q := ToInt(Float(units, scale)).value;
      && (units >= 0 ==> q >= 0 && q * Pow10(scale) <= units < (q + 1) * Pow10(scale))
      && (units < 0 ==> q <= 0 && (q - 1) * Pow10(scale) < units <= q * Pow10(scale))
  {
    TruncBounds(units, Pow10(scale));
  }

  lemma TruncBounds(units: int, p: nat)
    requires p >= 1
    ensures var q := if units >= 0 then units / p else -((-units) / p);
      && (units >= 0 ==> q >= 0 && q * p <= units < (q + 1) * p)
      && (units < 0 ==> q <= 0 && (q - 1) * p < units <= q * p)
  {
    if units >= 0 {
      DivBounds(units, p);
    } else {
      var n := -units;
      DivBounds(n, p);
      var d := n / p;
      assert (-d - 1) * p == -((d + 1) * p);
      assert -d * p == -(d * p);
    }
  }

  lemma DivBounds(n: nat, p: nat)
    requires p >= 1
    ensures n / p >= 0 && (n / p) * p <= n < (n / p + 1) * p
  {
    var q, r := n / p, n % p;
    assert n == q * p + r;
    assert (q + 1) * p == q * p + p;
  }

  /** `int(v)` rejects values that are not numbers, booleans or text. */
  lemma ToIntRejects(v: Value)
    ensures ToInt(v).Ok? <==> v.Bool? || v.Int? || v.Float? || (v.Str? && ParseInt(v.s).Some?)
  {
  }

  /** `float(v)` of an integer or a boolean keeps its value. */
  lemma ToFloatOfInteger(v: Value)
    requires v.Int? || v.Bool?
    ensures ToFloat(v) == Ok(Float(ToInt(v).value, 0))
  {
  }
}
