/** `String::from_utf8`: a byte vector becomes a `String` exactly when it is
    well-formed UTF-8 (the byte sequences of table 3-7 of the Unicode
    standard: no overlong forms, no surrogates, nothing above U+10FFFF). */
module Utf8 {
  import opened Ints
  import opened Wrappers

  predicate IsContinuation(b: byte) {
    0x80 <= b <= 0xBF
  }

  /** The length of the well-formed sequence that starts `s`, or 0 when `s`
      does not start with one. */
  function LeadingScalarLength(s: seq<byte>): (n: nat)
    requires |s| > 0
    ensures n <= 4 && n <= |s|
  {
    var b := s[0];
    if b < 0x80 then 1
    else if 0xC2 <= b <= 0xDF then
      if |s| >= 2 && IsContinuation(s[1]) then 2 else 0
    else if 0xE0 <= b <= 0xEF then
      var lo := if b == 0xE0 then 0xA0 else 0x80;
      var hi := if b == 0xED then 0x9F else 0xBF;
      if |s| >= 3 && lo <= s[1] <= hi && IsContinuation(s[2]) then 3 else 0
    else if 0xF0 <= b <= 0xF4 then
      var lo := if b == 0xF0 then 0x90 else 0x80;
      var hi := if b == 0xF4 then 0x8F else 0xBF;
      if |s| >= 4 && lo <= s[1] <= hi && IsContinuation(s[2]) && IsContinuation(s[3]) then 4 else 0
    else 0
  }

  predicate WellFormed(s: seq<byte>)
    decreases |s|
  {
    |s| == 0 || (LeadingScalarLength(s) > 0 && WellFormed(s[LeadingScalarLength(s)..]))
  }

  /** The length of the longest prefix made of whole well-formed sequences,
      scanning from the front (Rust's `valid_up_to`). */
  function ValidUpTo(s: seq<byte>): (n: nat)
    ensures n <= |s|
    decreases |s|
  {
    if |s| == 0 then 0
    else
      var k := LeadingScalarLength(s);
      if k == 0 then 0 else k + ValidUpTo(s[k..])
  }

  lemma {:induction false} ValidUpToIsWellFormedPrefix(s: seq<byte>)
    ensures WellFormed(s[..ValidUpTo(s)])
    ensures ValidUpTo(s) == |s| <==> WellFormed(s)
    decreases |s|
  {
    if |s| > 0 {
      var k := LeadingScalarLength(s);
      if k > 0 {
        ValidUpToIsWellFormedPrefix(s[k..]);
        var p := s[..ValidUpTo(s)];
        assert p[..k] == s[..k];
        assert LeadingScalarLength(p) == k;
        assert p[k..] == s[k..][..ValidUpTo(s[k..])];
      } else {
        assert s[..0] == [];
      }
    }
  }

  /** A sequence that a prefix already completes starts every extension too. */
  lemma LeadingOfPrefix(s: seq<byte>, k: nat)
    requires 0 < k <= |s| && LeadingScalarLength(s[..k]) > 0
    ensures LeadingScalarLength(s) == LeadingScalarLength(s[..k])
  {
  }

  /** No longer prefix is well-formed: `ValidUpTo` is the largest index. */
  lemma {:induction false} ValidUpToIsLongest(s: seq<byte>)
    ensures forall k :: ValidUpTo(s) < k <= |s| ==> !WellFormed(s[..k])
    decreases |s|
  {
    if |s| > 0 {
      var n := LeadingScalarLength(s);
      if n > 0 {
        ValidUpToIsLongest(s[n..]);
      }
      forall k | ValidUpTo(s) < k <= |s| ensures !WellFormed(s[..k]) {
        var t := s[..k];
        if LeadingScalarLength(t) > 0 {
          LeadingOfPrefix(s, k);
          assert t[n..] == s[n..][..k - n];
        }
      }
    }
  }

  datatype Utf8Error = Utf8Error(validUpTo: nat)

  /** `String::from_utf8`: the same bytes as a string, or the length of the
      longest well-formed prefix, which ends where the first ill-formed
      sequence starts. */
  function FromUtf8(v: seq<byte>): (r: Result<seq<byte>, Utf8Error>)
    ensures r.Ok? <==> WellFormed(v)
    ensures r.Ok? ==> r.value == v
    ensures r.Err? ==> r.error.validUpTo < |v| && WellFormed(v[..r.error.validUpTo])
    ensures r.Err? ==> forall k :: r.error.validUpTo < k <= |v| ==> !WellFormed(v[..k])
  {
    ValidUpToIsWellFormedPrefix(v);
    ValidUpToIsLongest(v);
    var n := ValidUpTo(v);
    if n == |v| then Ok(v) else Err(Utf8Error(n))
  }

  predicate IsAscii(s: seq<byte>) {
    forall i :: 0 <= i < |s| ==> s[i] < 0x80
  }

  /** Every ASCII byte sequence is well-formed UTF-8. */
  lemma {:induction false} AsciiIsWellFormed(s: seq<byte>)
    requires IsAscii(s)
    ensures WellFormed(s)
    decreases |s|
  {
    if |s| > 0 {
      assert IsAscii(s[1..]);
      AsciiIsWellFormed(s[1..]);
    }
  }
}
