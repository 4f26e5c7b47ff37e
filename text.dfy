/**
 * The few Python string built-ins the pipeline relies on, over ASCII text:
 * decimal digits, `int(str)` and `str(int)`, zero padding, `str.capitalize`,
 * `str.split`, `''.join`, `str.replace(c, "")` and the substring test `in`.
 */
module Text {
  import opened Wrappers

  predicate IsDigit(c: char) { '0' <= c <= '9' }

  predicate AllDigits(s: string) { forall i :: 0 <= i < |s| ==> IsDigit(s[i]) }

  function DigitValue(c: char): nat
    requires IsDigit(c)
  {
    c as int - '0' as int
  }

  function DigitChar(d: nat): (c: char)
    requires d < 10
    ensures IsDigit(c) && DigitValue(c) == d
  {
    ('0' as int + d) as char
  }

  function Pow10(n: nat): (p: nat)
    ensures p >= 1
  {
    if n == 0 then 1 else 10 * Pow10(n - 1)
  }

  /** The number a string of decimal digits denotes, most significant digit first. */
  function DigitsValue(s: string): nat
    requires AllDigits(s)
  {
    if s == [] then 0 else 10 * DigitsValue(s[..|s| - 1]) + DigitValue(s[|s| - 1])
  }

  lemma DigitsValueSnoc(s: string, c: char)
    requires AllDigits(s) && IsDigit(c)
    ensures AllDigits(s + [c]) && DigitsValue(s + [c]) == 10 * DigitsValue(s) + DigitValue(c)
  {
    assert (s + [c])[..|s|] == s;
  }

  lemma DigitsValueOfTwo(s: string)
    requires |s| == 2 && AllDigits(s)
    ensures DigitsValue(s) == 10 * DigitValue(s[0]) + DigitValue(s[1])
  {
    assert s[..1][..0] == [];
    assert DigitsValue(s[..1]) == DigitValue(s[0]);
  }

  lemma DigitsValueOfFour(s: string)
    requires |s| == 4 && AllDigits(s)
    ensures DigitsValue(s) == 1000 * DigitValue(s[0]) + 100 * DigitValue(s[1]) + 10 * DigitValue(s[2]) + DigitValue(s[3])
  {
    var s3 := s[..3];
    assert s3[..2] == s[..2];
    DigitsValueOfTwo(s[..2]);
    assert DigitsValue(s3) == 10 * DigitsValue(s[..2]) + DigitValue(s[2]);
    assert DigitsValue(s) == 10 * DigitsValue(s3) + DigitValue(s[3]);
  }

  /** Decimal text of a natural number without leading zeros, as `str(n)` writes it. */
  function NatText(n: nat): (r: string)
    ensures |r| >= 1 && AllDigits(r) && DigitsValue(r) == n
    ensures |r| > 1 ==> r[0] != '0'
  {
    if n < 10 then [DigitChar(n)]
    else
      var init := NatText(n / 10);
      DigitsValueSnoc(init, DigitChar(n % 10));
      init + [DigitChar(n % 10)]
  }

  /** `str(i)` for a Python int: a minus sign for negatives, then the digits. */
  function IntText(i: int): (r: string)
    ensures ParseInt(r) == Some(i)
  {
    if i < 0 then "-" + NatText(-i) else NatText(i)
  }

  /**
   * `int(s)` for a string: an optional sign followed by at least one decimal
   * digit (leading zeros allowed). Python's tolerance of surrounding
   * whitespace, of `_` between digits and of non-ASCII digits is not modelled.
   */
  function ParseInt(s: string): Option<int>
  {
    if |s| > 0 && (s[0] == '+' || s[0] == '-') then
      var d := s[1..];
      if |d| > 0 && AllDigits(d) then
        var n: int := DigitsValue(d);
        Some(if s[0] == '-' then -n else n)
      else None
    else if |s| > 0 && AllDigits(s) then Some(DigitsValue(s))
    else None
  }

  /** The `width` lowest decimal digits of `n`, zero padded: `"%0{width}d" % n` for small `n`. */
  function FixedDigits(n: nat, width: nat): (r: string)
    requires n < Pow10(width)
    ensures |r| == width && AllDigits(r) && DigitsValue(r) == n
  {
    if width == 0 then ""
    else
      var init := FixedDigits(n / 10, width - 1);
      DigitsValueSnoc(init, DigitChar(n % 10));
      init + [DigitChar(n % 10)]
  }

  lemma DivTen(q: nat, r: nat)
    requires r < 10
    ensures (10 * q + r) / 10 == q && (10 * q + r) % 10 == r
  {
  }

  /** Decimal text is unique: a digit string is the zero-padded text of its own value at its own width. */
  lemma {:induction false} FixedDigitsOfText(s: string)
    requires AllDigits(s)
    ensures DigitsValue(s) < Pow10(|s|) && FixedDigits(DigitsValue(s), |s|) == s
  {
    if s != [] {
      var init, c := s[..|s| - 1], s[|s| - 1];
      FixedDigitsOfText(init);
      var q, r := DigitsValue(init), DigitValue(c);
      DivTen(q, r);
      assert DigitsValue(s) == 10 * q + r;
      assert DigitChar(r) == c;
      assert init + [c] == s;
    }
  }

  /** The padded text of the value of a digit string, at the string's width, is the string. */
  lemma PaddedOfText(s: string, n: nat)
    requires AllDigits(s) && DigitsValue(s) == n
    ensures Padded(n, |s|) == s
  {
    FixedDigitsOfText(s);
  }

  /** `"%0{width}d" % n`: zero padded to `width` digits, or all the digits of a wider number. */
  function Padded(n: nat, width: nat): (r: string)
    ensures AllDigits(r) && DigitsValue(r) == n
    ensures n < Pow10(width) ==> r == FixedDigits(n, width)
  {
    if n < Pow10(width) then FixedDigits(n, width) else NatText(n)
  }

  function Upper(c: char): char { if 'a' <= c <= 'z' then (c as int - 32) as char else c }

  function Lower(c: char): char { if 'A' <= c <= 'Z' then (c as int + 32) as char else c }

  function LowerAll(s: string): (r: string)
    ensures |r| == |s|
  {
    if s == [] then [] else [Lower(s[0])] + LowerAll(s[1..])
  }

  /** `w.capitalize()`: the first character upper-cased, every other one lower-cased. */
  function Capitalize(w: string): string
  {
    if w == [] then [] else [Upper(w[0])] + LowerAll(w[1..])
  }

  /**
   * `s.split(sep)` for a one-character separator: always at least one piece,
   * an empty piece on either side of every separator that has no text there.
   */
  function Split(s: string, sep: char): (pieces: seq<string>)
    ensures |pieces| >= 1
  {
    if s == [] then [""]
    else
      var rest := Split(s[1..], sep);
      if s[0] == sep then [""] + rest else [[s[0]] + rest[0]] + rest[1..]
  }

  /** `''.join(pieces)`. */
  function Concat(pieces: seq<string>): string
  {
    if pieces == [] then "" else pieces[0] + Concat(pieces[1..])
  }

  /** `s.replace(c, "")`: every occurrence of `c` deleted. */
  function Remove(s: string, c: char): (r: string)
    ensures c !in r && |r| <= |s|
  {
    if s == [] then ""
    else if s[0] == c then Remove(s[1..], c)
    else [s[0]] + Remove(s[1..], c)
  }

  /** `sub in s` for strings: `sub` occurs in `s` as a contiguous piece. */
  predicate Contains(s: string, sub: string)
    decreases |s|
  {
    |sub| <= |s| && (s[..|sub|] == sub || Contains(s[1..], sub))
  }

  lemma LowerAllAppend(a: string, b: string)
    ensures LowerAll(a + b) == LowerAll(a) + LowerAll(b)
  {
    if a == [] {
      assert a + b == b;
    } else {
      assert (a + b)[1..] == a[1..] + b;
      LowerAllAppend(a[1..], b);
    }
  }

  lemma LowerAllIdempotent(s: string)
    ensures LowerAll(LowerAll(s)) == LowerAll(s)
  {
    if s != [] {
      LowerAllIdempotent(s[1..]);
    }
  }

  /** Capitalising a word changes only the case of its letters. */
  lemma {:induction false} CapitalizeIgnoringCase(w: string)
    ensures LowerAll(Capitalize(w)) == LowerAll(w)
  {
    if w != [] {
      LowerAllIdempotent(w[1..]);
      calc {
        LowerAll(Capitalize(w));
        LowerAll([Upper(w[0])] + LowerAll(w[1..]));
        [Lower(Upper(w[0]))] + LowerAll(LowerAll(w[1..]));
        [Lower(w[0])] + LowerAll(w[1..]);
        LowerAll(w);
      }
    }
  }

  /** Joining the pieces of a split gives the text back without its separators. */
  lemma {:induction false} ConcatSplit(s: string, sep: char)
    ensures Concat(Split(s, sep)) == Remove(s, sep)
  {
    if s != [] {
      var rest := Split(s[1..], sep);
      ConcatSplit(s[1..], sep);
      if s[0] != sep {
        calc {
          Concat(Split(s, sep));
          Concat([[s[0]] + rest[0]] + rest[1..]);
          ([s[0]] + rest[0]) + Concat(rest[1..]);
          [s[0]] + (rest[0] + Concat(rest[1..]));
          [s[0]] + Concat(rest);
        }
      }
    }
  }

  /** A text without `c` is split into itself alone. */
  lemma {:induction false} SplitWithoutSeparator(s: string, sep: char)
    requires sep !in s
    ensures Split(s, sep) == [s]
  {
    if s != [] {
      assert sep !in s[1..] by {
        forall i | 0 <= i < |s[1..]| ensures s[1..][i] != sep {
          assert s[1..][i] == s[i + 1];
        }
      }
      SplitWithoutSeparator(s[1..], sep);
      assert [s[0]] + s[1..] == s;
    }
  }

  /** A text without upper-case letters is its own lower-case form. */
  lemma {:induction false} LowerAllOfLower(s: string)
    requires forall i :: 0 <= i < |s| ==> !('A' <= s[i] <= 'Z')
    ensures LowerAll(s) == s
  {
    if s != [] {
      LowerAllOfLower(s[1..]);
    }
  }

  /** Deleting a character from a text that does not hold it changes nothing. */
  lemma {:induction false} RemoveAbsent(s: string, c: char)
    requires c !in s
    ensures Remove(s, c) == s
  {
    if s != [] {
      assert c !in s[1..] by {
        forall i | 0 <= i < |s[1..]| ensures s[1..][i] != c {
          assert s[1..][i] == s[i + 1];
        }
      }
      RemoveAbsent(s[1..], c);
    }
  }

  lemma {:induction false} RemoveAppend(a: string, b: string, c: char)
    ensures Remove(a + b, c) == Remove(a, c) + Remove(b, c)
  {
    if a == [] {
      assert a + b == b;
    } else {
      assert (a + b)[1..] == a[1..] + b;
      RemoveAppend(a[1..], b, c);
    }
  }
}
