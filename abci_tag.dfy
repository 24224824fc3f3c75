/** ABCI tags (`abci/tag.rs`): a key/value pair annotating execution
    results. `Key` and `Value` are string newtypes whose `from_str` accepts
    every string unchanged; `Key` also derives a total order, which for a
    newtype over `String` is the order of the underlying strings. Rust
    compares strings by their UTF-8 bytes, which orders them exactly as
    their sequences of code points, the order used here. */
module AbciTag {
  import opened Wrappers

  datatype Key = Key(name: string)
  datatype Value = Value(text: string)
  datatype Tag = Tag(key: Key, value: Value)

  /** The crate's error type; `from_str` never produces one. */
  datatype Error = ParseError

  /** `Key::as_ref`. */
  function KeyAsRef(k: Key): string {
    k.name
  }

  /** `Key::from_str`: always `Ok`, storing the string as given (the empty
      string included); nothing is validated. */
  function KeyFromStr(s: string): (r: Result<Key, Error>)
    ensures r.Ok? && KeyAsRef(r.value) == s
  {
    Ok(Key(s))
  }

  /** `Display for Key`: writes the stored string to the formatter, after
      whatever it already holds. */
  function KeyFmt(k: Key, out: string): string {
    out + k.name
  }

  /** `Value::as_ref`. */
  function ValueAsRef(v: Value): string {
    v.text
  }

  /** `Value::from_str`: always `Ok`, storing the string as given. */
  function ValueFromStr(s: string): (r: Result<Value, Error>)
    ensures r.Ok? && ValueAsRef(r.value) == s
  {
    Ok(Value(s))
  }

  /** `Display for Value`. */
  function ValueFmt(v: Value, out: string): string {
    out + v.text
  }

  /** Formatting a key or value parsed from `s` writes exactly `s`, and
      `from_str` of what `as_ref` returns rebuilds the same key or value. */
  lemma DisplayRoundTrip(s: string, k: Key, v: Value)
    ensures KeyFmt(KeyFromStr(s).value, "") == s
    ensures ValueFmt(ValueFromStr(s).value, "") == s
    ensures KeyFromStr(KeyAsRef(k)) == Ok(k)
    ensures ValueFromStr(ValueAsRef(v)) == Ok(v)
  {
  }

  datatype Ordering = Less | Equal | Greater {
    function Reverse(): Ordering {
      match this
      case Less => Greater
      case Equal => Equal
      case Greater => Less
    }
  }

  /** `Ord for String`: compares element by element; a proper prefix comes
      first. */
  function Compare(a: string, b: string): Ordering
    decreases |a|
  {
    if |a| == 0 then (if |b| == 0 then Equal else Less)
    else if |b| == 0 then Greater
    else if a[0] < b[0] then Less
    else if a[0] > b[0] then Greater
    else Compare(a[1..], b[1..])
  }

  /** The derived `Ord for Key`: the order of the stored strings. */
  function KeyCompare(k1: Key, k2: Key): Ordering {
    Compare(k1.name, k2.name)
  }

  /** Lexicographic order, defined outright: `a` is a proper prefix of `b`,
      or the first position where they differ holds a smaller character. */
  ghost predicate LexLess(a: string, b: string) {
    || (|a| < |b| && a == b[..|a|])
    || exists i :: 0 <= i < |a| && i < |b| && a[..i] == b[..i] && a[i] < b[i]
  }

  /** A difference after a shared first character is a difference in the
      tails, one position earlier. */
  lemma LexLessDrop(a: string, b: string)
    requires |a| > 0 && |b| > 0 && a[0] == b[0] && LexLess(a, b)
    ensures LexLess(a[1..], b[1..])
  {
    if !(|a| < |b| && a == b[..|a|]) {
      var i :| 0 <= i < |a| && i < |b| && a[..i] == b[..i] && a[i] < b[i];
      assert i > 0;
      assert a[1..][..i - 1] == a[1..i] == b[1..i] == b[1..][..i - 1];
      assert a[1..][i - 1] < b[1..][i - 1];
    }
  }

  lemma LexLessPrepend(a: string, b: string)
    requires |a| > 0 && |b| > 0 && a[0] == b[0] && LexLess(a[1..], b[1..])
    ensures LexLess(a, b)
  {
    var a', b' := a[1..], b[1..];
    if |a'| < |b'| && a' == b'[..|a'|] {
      assert a == [a[0]] + a' && b[..|a|] == [b[0]] + b'[..|a'|];
    } else {
      var i :| 0 <= i < |a'| && i < |b'| && a'[..i] == b'[..i] && a'[i] < b'[i];
      assert a[..i + 1] == [a[0]] + a'[..i] && b[..i + 1] == [b[0]] + b'[..i];
      assert a[i + 1] < b[i + 1];
    }
  }

  lemma LexLessCons(a: string, b: string)
    requires |a| > 0 && |b| > 0 && a[0] == b[0]
    ensures LexLess(a, b) <==> LexLess(a[1..], b[1..])
  {
    if LexLess(a, b) {
      LexLessDrop(a, b);
    }
    if LexLess(a[1..], b[1..]) {
      LexLessPrepend(a, b);
    }
  }

  /** `Compare` says `Less` exactly when `a` precedes `b` lexicographically. */
  lemma {:induction false} CompareLessIff(a: string, b: string)
    ensures Compare(a, b) == Less <==> LexLess(a, b)
    decreases |a|
  {
    if |a| == 0 {
      if |b| > 0 {
        assert a == b[..0];
      }
    } else if |b| == 0 {
      assert !LexLess(a, b);
    } else if a[0] < b[0] {
      assert a[..0] == b[..0];
    } else if a[0] > b[0] {
      forall i | 0 < i < |a| && i < |b| && a[..i] == b[..i] ensures a[0] == b[0] {
        assert a[..i][0] == b[..i][0];
      }
    } else {
      CompareLessIff(a[1..], b[1..]);
      LexLessCons(a, b);
    }
  }

  /** `Compare` says `Equal` exactly for equal strings. */
  lemma {:induction false} CompareEqualIff(a: string, b: string)
    ensures Compare(a, b) == Equal <==> a == b
    decreases |a|
  {
    if |a| > 0 && |b| > 0 && a[0] == b[0] {
      CompareEqualIff(a[1..], b[1..]);
      assert a == [a[0]] + a[1..] && b == [b[0]] + b[1..];
    }
  }

  /** Swapping the operands reverses the answer. */
  lemma {:induction false} CompareAntisymmetric(a: string, b: string)
    ensures Compare(b, a) == Compare(a, b).Reverse()
    decreases |a|
  {
    if |a| > 0 && |b| > 0 && a[0] == b[0] {
      CompareAntisymmetric(a[1..], b[1..]);
    }
  }

  lemma {:induction false} CompareTransitive(a: string, b: string, c: string)
    requires Compare(a, b) == Less && Compare(b, c) == Less
    ensures Compare(a, c) == Less
    decreases |a|
  {
    if |a| > 0 && |b| > 0 && |c| > 0 && a[0] == b[0] && b[0] == c[0] {
      CompareTransitive(a[1..], b[1..], c[1..]);
    }
  }

  /** The derived order on keys is a total order consistent with equality:
      exactly one of less, equal, greater holds, equal only for equal keys,
      it reverses when the keys are swapped, and it is transitive. */
  lemma KeyOrderIsTotal(k1: Key, k2: Key, k3: Key)
    ensures KeyCompare(k1, k2) == Equal <==> k1 == k2
    ensures KeyCompare(k1, k2) == Less <==> LexLess(k1.name, k2.name)
    ensures KeyCompare(k2, k1) == KeyCompare(k1, k2).Reverse()
    ensures KeyCompare(k1, k2) == Less && KeyCompare(k2, k3) == Less ==> KeyCompare(k1, k3) == Less
  {
    CompareEqualIff(k1.name, k2.name);
    CompareLessIff(k1.name, k2.name);
    CompareAntisymmetric(k1.name, k2.name);
    if KeyCompare(k1, k2) == Less && KeyCompare(k2, k3) == Less {
      CompareTransitive(k1.name, k2.name, k3.name);
    }
  }
}
