/** The conversions of the light-client test fixtures (`tests/lite.rs`): a
    fixture signed header whose header and commit may each be missing, and
    a duration written as a decimal string of nanoseconds. Header and commit
    are type parameters: their contents play no part here. */
module LiteTests {
  import opened Wrappers
  import opened Ints
  import StdTime
  import DecimalU64

  /** The fixture's `SignedHeader`: either part may be absent. */
  datatype FixtureSignedHeader<H, C> = FixtureSignedHeader(header: Option<H>, commit: Option<C>)

  /** `rpc::endpoint::commit::SignedHeader`: both parts present. */
  datatype SignedHeader<H, C> = SignedHeader(header: H, commit: C)

  const MISSING_HEADER: string := "Missing header"
  const MISSING_COMMIT: string := "Missing commit"

  /** `TryFrom<SignedHeader> for rpc::endpoint::commit::SignedHeader`: the
      header is checked first, then the commit; each missing part has its
      own error, and a complete pair is passed on unchanged. */
  function TryFrom<H, C>(sh: FixtureSignedHeader<H, C>): (r: Result<SignedHeader<H, C>, string>)
    ensures r.Ok? <==> sh.header.Some? && sh.commit.Some?
    ensures r.Ok? ==> r.value.header == sh.header.value && r.value.commit == sh.commit.value
    ensures sh.header.None? ==> r.Err? && r.error == MISSING_HEADER
    ensures sh.header.Some? && sh.commit.None? ==> r.Err? && r.error == MISSING_COMMIT
  {
    match sh.header
    case Some(header) =>
      (match sh.commit
       case Some(commit) => Ok(SignedHeader(header, commit))
       case None => Err(MISSING_COMMIT))
    case None => Err(MISSING_HEADER)
  }

  /** `try_from` succeeds on exactly the fixtures that wrap a full signed
      header, and recovers that signed header. */
  lemma TryFromInverse<H, C>(sh: FixtureSignedHeader<H, C>, v: SignedHeader<H, C>)
    ensures TryFrom(sh) == Ok(v) <==> sh == FixtureSignedHeader(Some(v.header), Some(v.commit))
  {
  }

  /** The fixture's `Duration`: nanoseconds as a `u64`. */
  datatype Duration = Duration(nanos: u64)

  /** The deserializer's custom error, carrying the parse error. */
  datatype DeError = Custom(cause: DecimalU64.ParseIntError)

  /** `Deserialize for Duration`: parse the JSON string as a `u64`. */
  function DeserializeDuration(s: string): Result<Duration, DeError> {
    match DecimalU64.ParseU64(s)
    case Err(e) => Err(Custom(e))
    case Ok(n) => Ok(Duration(n))
  }

  /** Deserialization succeeds exactly when the string is an optional `+`
      and decimal digits denoting a number that fits in a `u64`, and stores
      that number. */
  lemma DeserializeDurationAccepts(s: string)
    ensures DeserializeDuration(s).Ok? <==> DecimalU64.IsU64Literal(s)
    ensures DeserializeDuration(s).Ok? ==>
      DeserializeDuration(s).value.nanos == DecimalU64.Value(DecimalU64.Unsigned(s))
  {
    DecimalU64.ParseU64Accepts(s);
  }

  /** A malformed fixture string fails with the parse error as its cause:
      "invalid digit found in string" for a non-digit reached before any
      overflow, "cannot parse integer from empty string" for `""`. */
  lemma DeserializeDurationRejects(s: string, i: nat)
    ensures DeserializeDuration(s) == Err(Custom(DecimalU64.ParseIntError(DecimalU64.Empty))) <==> s == ""
    ensures (s == "+" || s == "-" ||
      (var ds := DecimalU64.Unsigned(s);
        i < |ds| && !DecimalU64.IsDigit(ds[i]) && DecimalU64.AllDigits(ds[..i]) && DecimalU64.Value(ds[..i]) <= MAX_U64))
      ==> DeserializeDuration(s) == Err(Custom(DecimalU64.ParseIntError(DecimalU64.InvalidDigit)))
  {
    DecimalU64.ParseU64Errors(s);
    var ds := DecimalU64.Unsigned(s);
    if s == "+" || s == "-" ||
      (i < |ds| && !DecimalU64.IsDigit(ds[i]) && DecimalU64.AllDigits(ds[..i]) && DecimalU64.Value(ds[..i]) <= MAX_U64)
    {
      DecimalU64.ParseU64InvalidDigit(s, i);
    }
  }

  /** `From<Duration> for std::time::Duration`: `Duration::from_nanos`; the
      whole seconds and the sub-second nanoseconds add back up to the
      stored count. */
  function ToStdDuration(d: Duration): (r: StdTime.Duration)
    ensures StdTime.DurationNanos(r) == d.nanos
    ensures r.secs == d.nanos / StdTime.NANOS_PER_SEC && r.nanos == d.nanos % StdTime.NANOS_PER_SEC
  {
    StdTime.DurationFromNanos(d.nanos)
  }
}
