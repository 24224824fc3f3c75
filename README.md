# tendermint-rs light-client support types, modelled in Dafny

This project models the value conversions that sit around tendermint-rs's
light-client verifier: the Amino timestamp message and its conversions to
and from instants, the opaque evidence container with its base64 text form
and the evidence list `Data`, the ABCI tag key/value types with the derived
order on keys, and the two conversions the light-client test fixtures need
(a signed header whose parts may be missing, and a duration written as a
decimal string). Everything in these files is pure, so the model is
datatypes, functions and lemmas.

Modules (one per source file, plus the library behaviour they rely on):

- `Wrappers` — `Option`, `Result`, and `Outcome`, which records whether a
  Rust expression returns or panics (and why).
- `Ints` — Rust's integer types and the `as` casts used by the timestamp
  code, with the two's-complement wrap written out.
- `StdTime` — `std::time::Duration` and the Unix `SystemTime` (an `i64`
  second count plus sub-second nanoseconds), with the checked arithmetic
  that panics on overflow.
- `Utf8` — `String::from_utf8` and well-formed UTF-8.
- `Base64` — base64 as in section 4 of RFC 4648, with strict decoding.
- `AminoTime` — `amino_types/time.rs`.
- `Evidences` — `evidence.rs`.
- `AbciTag` — `abci/tag.rs`.
- `DecimalU64` — Rust's `u64::from_str`, used by the fixture duration.
- `LiteTests` — the conversions in `tests/lite.rs`.

An instant is a signed number of nanoseconds since the Unix epoch. A
tendermint `Time` holds any instant in chrono's range (years -262144 to
262143). A `SystemTime` holds any instant whose whole seconds fit in an
`i64`. Strings handed to serde are modelled by their UTF-8 bytes where the
code works on bytes (evidence), and as `seq<char>` elsewhere.

Where the system's design notes and the code disagree, the model follows
the code:

- The design notes read a timestamp with negative seconds as a magnitude
  with the nanoseconds subtracted. `parse_timestamp`, and the protobuf
  `Timestamp` that the message stands in for, read it as `seconds` plus
  `nanos` counted forward. The corrected conversion under "Findings" follows
  `parse_timestamp`.
- The design notes call tag keys validated, non-empty strings. `from_str`
  accepts every string, the empty one included.
- The design notes ask for tagged errors for a missing header or commit.
  The fixture conversion returns the strings "Missing header" and
  "Missing commit", and so does the model.

## Model

| member | source | states |
|---|---|---|
| `Ints.I64AsU64` | tendermint/src/amino_types/time.rs:42-44 | `seconds as u64` keeps a non-negative value and maps a negative one to `seconds + 2^64` |
| `Ints.I32AsU32` | tendermint/src/amino_types/time.rs:23 | `nanos as u32` keeps a non-negative value and maps a negative one to `nanos + 2^32` |
| `Ints.U64AsI64` | tendermint/src/amino_types/time.rs:31 | `as i64` keeps values below 2^63, wraps the rest, and is undone by `as u64` |
| `Ints.U32AsI32` | tendermint/src/amino_types/time.rs:32 | `as i32` keeps values below 2^31, wraps the rest, and is undone by `as u32` |
| `StdTime.DurationNew` | tendermint/src/amino_types/time.rs:42 | `Duration::new` keeps the total nanoseconds, carrying a second or more of nanos into the seconds; it panics exactly when those seconds overflow a `u64` |
| `StdTime.AddDuration` | tendermint/src/amino_types/time.rs:42 | `UNIX_EPOCH + d` is the instant `d` later; it panics exactly when that instant's seconds leave the `i64` range |
| `StdTime.SubDuration` | tendermint/src/amino_types/time.rs:44 | `UNIX_EPOCH - d` is the instant `d` earlier; it panics exactly when that instant's seconds leave the `i64` range |
| `StdTime.DurationFromNanos` | tendermint/tests/lite.rs:195 | `Duration::from_nanos(n)` has total length `n`, with whole seconds `n / 10^9` and sub-second part `n % 10^9` |
| `AminoTime.ParseTimestamp` | tendermint/src/amino_types/time.rs:21-24 | never returns `Err`; the instant has whole seconds `seconds` and sub-second part `nanos`, for either sign of `seconds` |
| `AminoTime.DurationSince` | tendermint/src/amino_types/time.rs:30 | `duration_since` is `Ok` exactly when the other time is not later, and then holds the distance between the two |
| `AminoTime.MsgFromTime` | tendermint/src/amino_types/time.rs:27-35 | panics (the `unwrap`) exactly for instants before the epoch; otherwise `seconds >= 0`, `0 <= nanos < 10^9` and `seconds * 10^9 + nanos` is the instant |
| `AminoTime.SystemTimeFromNonNegativeSeconds` | tendermint/src/amino_types/time.rs:41-42 | for `seconds >= 0` the instant is `seconds * 10^9 + (nanos as u32)`: a negative `nanos` adds `nanos + 2^32`, carried into seconds. It panics only when the seconds overflow an `i64` |
| `AminoTime.SystemTimeFromNegativeSecondsWraps` | tendermint/src/amino_types/time.rs:43-45 | for `seconds < 0`, `seconds as u64` is `seconds + 2^64`. Subtracting that from the epoch panics for every message except `{i64::MIN, 0}` |
| `AminoTime.RoundTripTime` | tendermint/src/amino_types/time.rs:27-46 | an instant at or after the epoch survives Time -> Msg -> SystemTime |
| `AminoTime.ParseAgreesWithSystemTime` | tendermint/src/amino_types/time.rs:21-46 | for `seconds >= 0` and `0 <= nanos < 10^9`, both conversions give the instant `seconds * 10^9 + nanos` |
| `AminoTime.RoundTripMsg` | tendermint/src/amino_types/time.rs:21-46 | a message with `seconds >= 0` and `0 <= nanos < 10^9` survives Msg -> instant -> Msg through either conversion |
| `AminoTime.NegativeSecondsDisagreeWithParse` | tendermint/src/amino_types/time.rs:21-46 | one second before the epoch parses to that instant, but the `SystemTime` conversion panics on it |
| `AminoTime.CorrectedDenotesTimestamp` | tendermint/src/amino_types/time.rs:39-46 | the corrected conversion gives `seconds * 10^9 + (nanos as u32)` for every message and never panics for negative seconds |
| `AminoTime.CorrectedAgreesWithParse` | tendermint/src/amino_types/time.rs:21-46 | the corrected conversion gives the same instant as `parse_timestamp`, before the epoch too |
| `Utf8.FromUtf8` | tendermint/src/evidence.rs:45-46 | `String::from_utf8` is `Ok` with the same bytes exactly for well-formed UTF-8. Otherwise it reports the longest well-formed prefix, shorter than the input: no longer prefix is well-formed |
| `Utf8.AsciiIsWellFormed` | tendermint/src/evidence.rs:45-46 | every ASCII byte string is well-formed UTF-8 |
| `Base64.EncodeShape` | tendermint/src/evidence.rs:45 | the encoding has `4 * ceil(n / 3)` characters. All are from the alphabet or `=`, and `=` appears only in the last two positions |
| `Base64.DecodeEncode` | tendermint/src/evidence.rs:34-49 | decoding the encoding of any byte string gives it back |
| `Base64.EncodeDecode` | tendermint/src/evidence.rs:34-49 | a string that decodes is exactly the encoding of its result |
| `Base64.DecodeSucceedsIff` | tendermint/src/evidence.rs:36-37 | decoding succeeds exactly on strings that encoding produces |
| `Evidences.AminoBytesRoundTrip` | tendermint/src/evidence.rs:20-31 | `to_amino_bytes(new(v)) == v` for every `v`, the empty one included, and `new` rebuilds any evidence from its bytes |
| `Evidences.EncodeIsAscii` | tendermint/src/evidence.rs:45-46 | the base64 text of any evidence is ASCII |
| `Evidences.Serialize` | tendermint/src/evidence.rs:43-49 | the `unwrap` on `String::from_utf8` never panics; the text is well-formed UTF-8, of base64 alphabet and padding, `4 * ceil(n / 3)` long |
| `Evidences.SerializeRoundTrip` | tendermint/src/evidence.rs:34-49 | deserializing the serialization of `new(v)` yields `new(v)` |
| `Evidences.DeserializeRoundTrip` | tendermint/src/evidence.rs:34-49 | a string that deserializes is exactly the serialization of the evidence it yields |
| `Evidences.DeserializeFailsIff` | tendermint/src/evidence.rs:34-40 | deserialization is an error, and builds no evidence, exactly on strings that are not base64 |
| `Evidences.Next` | tendermint/src/evidence.rs:77-79 | the slice iterator yields `None` exactly when exhausted; otherwise it yields the first remaining element and keeps the rest |
| `Evidences.IterYieldsAsRef` | tendermint/src/evidence.rs:77-86 | `iter` yields exactly the elements `as_ref` presents, in order |
| `Evidences.IntoVecIsAsRef` | tendermint/src/evidence.rs:72-86 | `into_vec` returns the list `as_ref` presents, element for element |
| `Evidences.NewDataPresentsList` | tendermint/src/evidence.rs:62-86 | `Data::new(v)` presents, iterates and returns exactly `v` |
| `Evidences.AbsentListIsEmpty` | tendermint/src/evidence.rs:54-86 | a `Data` without a list (as `Default` builds it) presents, iterates and returns nothing |
| `AbciTag.KeyFromStr` | tendermint/src/abci/tag.rs:21-33 | `Key::from_str(s)` is always `Ok` and `as_ref` returns `s` |
| `AbciTag.ValueFromStr` | tendermint/src/abci/tag.rs:45-57 | `Value::from_str(s)` is always `Ok` and `as_ref` returns `s` |
| `AbciTag.DisplayRoundTrip` | tendermint/src/abci/tag.rs:21-63 | displaying a key or value parsed from `s` writes exactly `s`, and parsing what `as_ref` returns rebuilds it |
| `AbciTag.CompareLessIff` | tendermint/src/abci/tag.rs:17-19 | string comparison says `Less` exactly when the first string precedes the second lexicographically (a proper prefix, or a smaller character at the first difference) |
| `AbciTag.CompareEqualIff` | tendermint/src/abci/tag.rs:17-19 | string comparison says `Equal` exactly for equal strings |
| `AbciTag.CompareAntisymmetric` | tendermint/src/abci/tag.rs:17-19 | swapping the operands reverses the comparison |
| `AbciTag.CompareTransitive` | tendermint/src/abci/tag.rs:17-19 | `Less` is transitive |
| `AbciTag.KeyOrderIsTotal` | tendermint/src/abci/tag.rs:17-19 | the derived key order is total, lexicographic on the stored strings, and says `Equal` exactly for equal keys |
| `DecimalU64.AccumulateDigits` | tendermint/tests/lite.rs:186-188 | the digit loop returns the accumulated value of the digits, or `PosOverflow` exactly when it exceeds `u64::MAX` |
| `DecimalU64.ParseU64Accepts` | tendermint/tests/lite.rs:186-188 | `parse::<u64>` succeeds exactly on an optional `+` then one or more digits with value at most `u64::MAX`, and returns that value |
| `DecimalU64.ParseU64Errors` | tendermint/tests/lite.rs:186-188 | the error is `Empty` exactly for the empty string, and `PosOverflow` for digits whose value is too large |
| `DecimalU64.ParseU64InvalidDigit` | tendermint/tests/lite.rs:186-188 | the error is `InvalidDigit` for a lone `+` or `-`, and for a non-digit (a `-` sign included) reached while the digits before it still fit in a `u64` |
| `LiteTests.TryFrom` | tendermint/tests/lite.rs:199-210 | `Ok` with that exact header and commit exactly when both are present. "Missing header" when the header is absent, whatever the commit. "Missing commit" when only the commit is absent |
| `LiteTests.TryFromInverse` | tendermint/tests/lite.rs:199-210 | `try_from` recovers `v` exactly from the fixture that wraps `v`'s header and commit |
| `LiteTests.DeserializeDurationAccepts` | tendermint/tests/lite.rs:183-191 | the fixture duration deserializes exactly from a `u64` literal and stores its value |
| `LiteTests.DeserializeDurationRejects` | tendermint/tests/lite.rs:183-191 | a malformed fixture string fails with the parse error as the custom error's cause: the empty-string error exactly for `""`, the invalid-digit error for a lone sign or a non-digit reached before any overflow |
| `LiteTests.ToStdDuration` | tendermint/tests/lite.rs:193-197 | the `std::time::Duration` has the stored number of nanoseconds, split into `d / 10^9` seconds and `d % 10^9` nanoseconds |

`Params` (tendermint/src/evidence.rs:89-97) is the datatype
`Evidences.Params`, a record whose `maxAge` field returns the stored
`u64`. `Tag` is the datatype `AbciTag.Tag`. `Value` has no order. Equality
of keys and of values is Dafny's structural datatype equality, which is
what the derived `PartialEq` on a string newtype compares.

## Left out

- `lite::verify_trusting`, validator sets, commits, votes, voting-power
  tallies and header hashing: their source is not part of this model, so
  `Header` and `Commit` are type parameters of `LiteTests`.
- The test drivers in tests/lite.rs (`read_json_fixture`,
  `language_agnostic_test_cases`, `test_verify`,
  `check_verifier_with_mock_data`). They read files, print and assert on
  external fixtures.
- serde and serde_json framing. `Evidences.Serialize` and
  `Evidences.Deserialize` act on the content of the JSON string, and
  `String::deserialize` failing on a non-string is not modelled. The
  deserializer's error message is kept as the underlying decode or parse
  error.
- The prost (protobuf) encoding of `Msg`.
- `serializers::serialize_u64` and `serializers::parse_u64`, used by
  `Params`: their source is not part of this model.
- Structural decoding of evidence contents. The code leaves it as a TODO;
  evidence stays opaque bytes.
- `AminoTime.ParseTimestamp`: requires `nanos` to be non-negative and below
  10^9. chrono also accepts 10^9 to 2·10^9 - 1 nanoseconds as a leap
  second, which an integer instant cannot express. Its other panic, a date
  outside chrono's range, is a precondition too.
- src/time.rs (`Time`, `unix_epoch`, `duration_since`) is not part of this
  model. `Time` is an integer instant in chrono's range, and
  `AminoTime.DurationSince` gives the non-negative difference or an error.
- `StdTime.SubDuration` follows current Unix standard libraries, which can
  subtract 2^63 seconds from the epoch (so `{i64::MIN, 0}` converts).
  Older ones rejected a duration of 2^63 seconds or more before
  subtracting.
- `DecimalU64.ParseU64`: a lone `+` is `InvalidDigit`, as in current
  standard libraries; older ones reported `Empty`.
- `Base64.Decode` rejects groups whose discarded padding bits are not zero,
  as section 3.5 of RFC 4648 allows. How subtle_encoding treats them, its
  constant-time implementation and its exact error variants are not
  modelled. The model has two errors: a bad length, and a bad character or
  padding.
- The derived `Clone`, `Debug`, `Hash`, `Serialize` and `Deserialize` of
  the tag types.

## Findings

| source | as written | input that shows it | evidently intended | confidence | as-written member | corrected member |
|---|---|---|---|---|---|---|
| tendermint/src/amino_types/time.rs:43-45 | for negative `seconds`, subtracts from the epoch a duration built from `seconds as u64`, which wraps to `seconds + 2^64` seconds, so the `SystemTime` subtraction overflows and panics | `Msg { seconds: -1, nanos: 0 }` panics, while `parse_timestamp` gives one second before the epoch | intended following `parse_timestamp` and the protobuf reading: subtract the magnitude of `seconds` and add `nanos` forward, giving the instant `parse_timestamp` gives. The code's own shape, which subtracts `nanos` together with the seconds, suggests the other reading the design notes take; the as-written panic holds under both | high, not executed | `AminoTime.NegativeSecondsDisagreeWithParse` | `AminoTime.CorrectedAgreesWithParse` |
