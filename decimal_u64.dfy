/** Rust's `u64::from_str` (`from_str_radix` with radix 10): an optional
    leading `+`, then one or more decimal digits whose value fits in a `u64`.
    Digits are consumed from the front; each step checks the digit first,
    then the multiplication by 10, then the addition, so the error reported
    is the first one met. */
module DecimalU64 {
  import opened Ints
  import opened Wrappers

  datatype IntErrorKind = Empty | InvalidDigit | PosOverflow
  datatype ParseIntError = ParseIntError(kind: IntErrorKind)

  predicate IsDigit(c: char) {
    '0' <= c <= '9'
  }

  function DigitValue(c: char): (d: int)
    requires IsDigit(c)
    ensures 0 <= d <= 9
  {
    c as int - '0' as int
  }

  predicate AllDigits(ds: string) {
    forall i :: 0 <= i < |ds| ==> IsDigit(ds[i])
  }

  function Pow10(k: nat): (p: nat)
    ensures p >= 1
  {
    if k == 0 then 1 else 10 * Pow10(k - 1)
  }

  /** The number a string of decimal digits denotes, most significant
      digit first. */
  function Value(ds: string): (n: nat)
    requires AllDigits(ds)
    decreases |ds|
  {
    if |ds| == 0 then 0 else DigitValue(ds[0]) * Pow10(|ds| - 1) + Value(ds[1..])
  }

  /** The digit loop, with `acc` the value of the digits already consumed. */
  function Accumulate(acc: u64, digits: string): Result<u64, ParseIntError>
    decreases |digits|
  {
    if |digits| == 0 then Ok(acc)
    else if !IsDigit(digits[0]) then Err(ParseIntError(InvalidDigit))
    else if acc * 10 > MAX_U64 then Err(ParseIntError(PosOverflow))
    else if acc * 10 + DigitValue(digits[0]) > MAX_U64 then Err(ParseIntError(PosOverflow))
    else Accumulate(acc * 10 + DigitValue(digits[0]), digits[1..])
  }

  /** The characters after an optional leading `+`. */
  function Unsigned(s: string): string {
    if |s| > 0 && s[0] == '+' then s[1..] else s
  }

  /** `u64::from_str`: empty input is `Empty`, a lone sign is
      `InvalidDigit`, and a `-` is never accepted for an unsigned type. */
  function ParseU64(s: string): Result<u64, ParseIntError> {
    if |s| == 0 then Err(ParseIntError(Empty))
    else if s == "+" || s == "-" then Err(ParseIntError(InvalidDigit))
    else Accumulate(0, Unsigned(s))
  }

  /** The strings `ParseU64` accepts, defined outright. */
  ghost predicate IsU64Literal(s: string) {
    var ds := Unsigned(s);
    |ds| > 0 && AllDigits(ds) && Value(ds) <= MAX_U64
  }

  lemma AtLeastOnce(x: nat, p: nat)
    requires p >= 1
    ensures x * p >= x
  {
    assert x * p == x * (p - 1) + x;
  }

  /** One digit moved from the unread digits into the accumulator. */
  lemma ShiftDigit(acc: nat, ds: string)
    requires |ds| > 0 && AllDigits(ds)
    ensures AllDigits(ds[1..])
    ensures acc * Pow10(|ds|) + Value(ds)
      == (acc * 10 + DigitValue(ds[0])) * Pow10(|ds| - 1) + Value(ds[1..])
  {
    var p := Pow10(|ds| - 1);
    assert Pow10(|ds|) == 10 * p;
    assert acc * (10 * p) == (acc * 10) * p;
    assert (acc * 10 + DigitValue(ds[0])) * p == (acc * 10) * p + DigitValue(ds[0]) * p;
  }

  lemma {:induction false} AccumulateDigits(acc: u64, ds: string)
    requires AllDigits(ds)
    ensures var total := acc * Pow10(|ds|) + Value(ds);
      Accumulate(acc, ds) == if total <= MAX_U64 then Ok(total) else Err(ParseIntError(PosOverflow))
    decreases |ds|
  {
    if |ds| > 0 {
      var next := acc * 10 + DigitValue(ds[0]);
      ShiftDigit(acc, ds);
      AtLeastOnce(next, Pow10(|ds| - 1));
      if next <= MAX_U64 {
        AccumulateDigits(next, ds[1..]);
      }
    }
  }

  /** `ParseU64` succeeds exactly on an optional `+` followed by one or more
      digits whose value fits in a `u64`, and returns that value. */
  lemma ParseU64Accepts(s: string)
    ensures ParseU64(s).Ok? <==> IsU64Literal(s)
    ensures ParseU64(s).Ok? ==> ParseU64(s).value == Value(Unsigned(s))
  {
    var ds := Unsigned(s);
    if |s| > 0 && s != "+" && s != "-" {
      if AllDigits(ds) {
        AccumulateDigits(0, ds);
      } else {
        var i :| 0 <= i < |ds| && !IsDigit(ds[i]);
        NonDigitRejected(0, ds, i);
      }
    }
  }

  lemma {:induction false} NonDigitRejected(acc: u64, ds: string, i: nat)
    requires i < |ds| && !IsDigit(ds[i])
    ensures Accumulate(acc, ds).Err?
    decreases |ds|
  {
    if i > 0 && IsDigit(ds[0]) && acc * 10 + DigitValue(ds[0]) <= MAX_U64 {
      NonDigitRejected(acc * 10 + DigitValue(ds[0]), ds[1..], i - 1);
    }
  }

  /** The error kinds: `Empty` exactly for the empty string, and
      `PosOverflow` for well-formed digits whose value exceeds `u64::MAX`. */
  lemma ParseU64Errors(s: string)
    ensures ParseU64(s) == Err(ParseIntError(Empty)) <==> s == ""
    ensures |Unsigned(s)| > 0 && AllDigits(Unsigned(s)) && Value(Unsigned(s)) > MAX_U64
      ==> ParseU64(s) == Err(ParseIntError(PosOverflow))
  {
    if |s| > 0 && s != "+" && s != "-" {
      ParseU64Accepts(s);
      if AllDigits(Unsigned(s)) {
        AccumulateDigits(0, Unsigned(s));
      }
      EmptyNeverFromDigits(0, Unsigned(s));
    }
  }

  /** The digit loop meets a non-digit at position `i` before any overflow:
      the digits before it, appended to `acc`, still fit in a `u64`. */
  lemma {:induction false} InvalidDigitAt(acc: u64, ds: string, i: nat)
    requires i < |ds| && !IsDigit(ds[i]) && AllDigits(ds[..i])
    requires acc * Pow10(i) + Value(ds[..i]) <= MAX_U64
    ensures Accumulate(acc, ds) == Err(ParseIntError(InvalidDigit))
    decreases i
  {
    if i > 0 {
      var prefix := ds[..i];
      var next := acc * 10 + DigitValue(ds[0]);
      ShiftDigit(acc, prefix);
      AtLeastOnce(next, Pow10(i - 1));
      assert prefix[1..] == ds[1..][..i - 1];
      InvalidDigitAt(next, ds[1..], i - 1);
    }
  }

  /** The third error kind: `InvalidDigit` for a lone sign, and for a
      non-digit (a `-` included) that the loop reaches before the digits
      ahead of it overflow. */
  lemma ParseU64InvalidDigit(s: string, i: nat)
    requires s == "+" || s == "-" ||
      (var ds := Unsigned(s); i < |ds| && !IsDigit(ds[i]) && AllDigits(ds[..i]) && Value(ds[..i]) <= MAX_U64)
    ensures ParseU64(s) == Err(ParseIntError(InvalidDigit))
  {
    if s != "+" && s != "-" {
      InvalidDigitAt(0, Unsigned(s), i);
    }
  }

  lemma {:induction false} EmptyNeverFromDigits(acc: u64, ds: string)
    ensures Accumulate(acc, ds) != Err(ParseIntError(Empty))
    decreases |ds|
  {
    if |ds| > 0 && IsDigit(ds[0]) && acc * 10 + DigitValue(ds[0]) <= MAX_U64 {
      EmptyNeverFromDigits(acc * 10 + DigitValue(ds[0]), ds[1..]);
    }
  }
}
