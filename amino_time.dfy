/** Timestamps in the Amino wire format (`amino_types/time.rs`): a message of
    `i64` seconds and `i32` nanoseconds, standing in for the protobuf
    `Timestamp` well-known type, and its conversions to and from instants.

    An instant is modelled as signed nanoseconds since the Unix epoch.
    tendermint's `Time` wraps a chrono UTC date-time, so it holds exactly the
    instants whose whole seconds lie in chrono's supported range
    (years -262144 to 262143). */
module AminoTime {
  import opened Wrappers
  import opened Ints
  import opened StdTime

  datatype Msg = Msg(seconds: i64, nanos: i32)

  /** Whole seconds of -262144-01-01T00:00:00Z and of 262143-12-31T23:59:59Z. */
  const CHRONO_MIN_SECS: int := -8_334_632_851_200
  const CHRONO_MAX_SECS: int := 8_210_298_412_799

  datatype Time = Time(sinceEpoch: int)

  const UNIX_EPOCH_TIME: Time := Time(0)

  predicate ValidTime(t: Time) {
    CHRONO_MIN_SECS <= t.sinceEpoch / NANOS_PER_SEC <= CHRONO_MAX_SECS
  }

  datatype Error = OutOfRange

  /** chrono's `Utc.timestamp(secs, nsecs)` returns rather than panics:
      the date lies in chrono's range and `nsecs` is below two seconds
      (the second one marking a leap second). */
  predicate ChronoAccepts(secs: int, nsecs: int) {
    CHRONO_MIN_SECS <= secs <= CHRONO_MAX_SECS && nsecs < 2 * NANOS_PER_SEC
  }

  /** `ParseTimestamp for Msg`: `Utc.timestamp(seconds, nanos as u32)`.
      The only outcome is `Ok`; the instant is `seconds` whole seconds plus
      `nanos` nanoseconds after the epoch, for either sign of `seconds`. */
  function ParseTimestamp(m: Msg): (r: Result<Time, Error>)
    requires ChronoAccepts(m.seconds, I32AsU32(m.nanos))
    requires I32AsU32(m.nanos) < NANOS_PER_SEC
    ensures r.Ok? && ValidTime(r.value)
    ensures r.value.sinceEpoch / NANOS_PER_SEC == m.seconds
    ensures r.value.sinceEpoch % NANOS_PER_SEC == m.nanos
  {
    SplitNanos(m.seconds, I32AsU32(m.nanos));
    Ok(Time(m.seconds * NANOS_PER_SEC + I32AsU32(m.nanos)))
  }

  /** `Time::duration_since`: the non-negative distance to an earlier time,
      or an error when `earlier` is in fact later. */
  function DurationSince(t: Time, earlier: Time): (r: Result<Duration, Error>)
    requires ValidTime(t) && ValidTime(earlier)
    ensures r.Ok? <==> earlier.sinceEpoch <= t.sinceEpoch
    ensures r.Ok? ==> DurationNanos(r.value) == t.sinceEpoch - earlier.sinceEpoch
  {
    var d := t.sinceEpoch - earlier.sinceEpoch;
    if d < 0 then Err(OutOfRange)
    else Ok(Duration(d / NANOS_PER_SEC, d % NANOS_PER_SEC))
  }

  /** `From<Time> for Msg`: the distance from the epoch, unwrapped, split
      into whole seconds and sub-second nanoseconds and cast to `i64`/`i32`.
      Panics on an instant before the epoch; otherwise the fields are in
      range and add back up to the instant. */
  function MsgFromTime(t: Time): (r: Outcome<Msg>)
    requires ValidTime(t)
    ensures r.Done? <==> t.sinceEpoch >= 0
    ensures r.Panic? ==> r.reason == UnwrapOnErr
    ensures r.Done? ==> 0 <= r.value.seconds && 0 <= r.value.nanos < NANOS_PER_SEC
    ensures r.Done? ==> r.value.seconds * NANOS_PER_SEC + r.value.nanos == t.sinceEpoch
  {
    match DurationSince(t, UNIX_EPOCH_TIME)
    case Err(_) => Panic(UnwrapOnErr)
    case Ok(d) => Done(Msg(U64AsI64(d.secs), U32AsI32(d.nanos)))
  }

  /** `From<Msg> for SystemTime`, as written: `Duration::new(seconds as u64,
      nanos as u32)` is added to the epoch for non-negative seconds and
      subtracted from it otherwise. */
  function SystemTimeFromMsg(m: Msg): Outcome<SystemTime> {
    var d := DurationNew(I64AsU64(m.seconds), I32AsU32(m.nanos));
    if d.Panic? then Panic(d.reason)
    else if m.seconds >= 0 then AddDuration(UNIX_EPOCH, d.value)
    else SubDuration(UNIX_EPOCH, d.value)
  }

  /** Non-negative seconds: the instant is `seconds` seconds plus
      `nanos as u32` nanoseconds after the epoch (a negative `nanos` counts
      as `nanos + 2^32`, carried into seconds by `Duration::new`); the
      conversion panics only if that instant's seconds overflow an `i64`. */
  lemma SystemTimeFromNonNegativeSeconds(m: Msg)
    requires m.seconds >= 0
    ensures var r := SystemTimeFromMsg(m);
      && (r.Done? <==> Representable(m.seconds * NANOS_PER_SEC + I32AsU32(m.nanos)))
      && (r.Done? ==> SinceEpoch(r.value) == m.seconds * NANOS_PER_SEC + I32AsU32(m.nanos))
      && (r.Done? && m.nanos < 0 ==> SinceEpoch(r.value) == m.seconds * NANOS_PER_SEC + m.nanos + TWO_32)
  {
    assert I32AsU32(m.nanos) / NANOS_PER_SEC <= 4;
  }

  /** Negative seconds: `seconds as u64` is `seconds + 2^64`, at least 2^63
      seconds, so subtracting it from the epoch overflows the `i64` seconds of
      a `SystemTime` for every message but `{i64::MIN, 0}`. */
  lemma SystemTimeFromNegativeSecondsWraps(m: Msg)
    requires m.seconds < 0
    ensures I64AsU64(m.seconds) == m.seconds + TWO_64
    ensures SystemTimeFromMsg(m).Done? <==> m == Msg(MIN_I64, 0)
    ensures SystemTimeFromMsg(m).Done? ==> SinceEpoch(SystemTimeFromMsg(m).value) == MIN_I64 * NANOS_PER_SEC
  {
    var u, n := I64AsU64(m.seconds), I32AsU32(m.nanos);
    if u + n / NANOS_PER_SEC <= MAX_U64 {
      var t := -(u * NANOS_PER_SEC + n);
      if m != Msg(MIN_I64, 0) {
        assert u * NANOS_PER_SEC + n > TWO_63 * NANOS_PER_SEC;
        assert t / NANOS_PER_SEC < MIN_I64;
      }
    }
  }

  /** For an instant at or after the epoch, Time -> Msg -> SystemTime gives
      back the same instant. */
  lemma RoundTripTime(t: Time)
    requires ValidTime(t) && t.sinceEpoch >= 0
    ensures MsgFromTime(t).Done?
    ensures var r := SystemTimeFromMsg(MsgFromTime(t).value);
      r.Done? && SinceEpoch(r.value) == t.sinceEpoch
  {
    var m := MsgFromTime(t).value;
    SystemTimeFromNonNegativeSeconds(m);
    assert m.seconds <= CHRONO_MAX_SECS;
  }

  /** Both conversions of a message with in-range fields denote the same
      instant, `seconds * 10^9 + nanos` nanoseconds after the epoch. */
  lemma ParseAgreesWithSystemTime(m: Msg)
    requires 0 <= m.seconds <= CHRONO_MAX_SECS && 0 <= m.nanos < NANOS_PER_SEC
    ensures ParseTimestamp(m).value.sinceEpoch == m.seconds * NANOS_PER_SEC + m.nanos
    ensures SystemTimeFromMsg(m).Done?
    ensures SinceEpoch(SystemTimeFromMsg(m).value) == m.seconds * NANOS_PER_SEC + m.nanos
  {
    SystemTimeFromNonNegativeSeconds(m);
  }

  /** A message with non-negative seconds (within chrono's range) and
      nanoseconds below one second survives Msg -> instant -> Msg, through
      either conversion. */
  lemma RoundTripMsg(m: Msg)
    requires 0 <= m.seconds <= CHRONO_MAX_SECS && 0 <= m.nanos < NANOS_PER_SEC
    ensures MsgFromTime(ParseTimestamp(m).value) == Done(m)
    ensures SystemTimeFromMsg(m).Done?
    ensures MsgFromTime(Time(SinceEpoch(SystemTimeFromMsg(m).value))) == Done(m)
  {
    ParseAgreesWithSystemTime(m);
    var t := Time(m.seconds * NANOS_PER_SEC + m.nanos);
    SplitNanos(m.seconds, m.nanos);
    var r := MsgFromTime(t);
    SplitNanos(r.value.seconds, r.value.nanos);
  }

  /** The negative branch disagrees with `ParseTimestamp`: one second before
      the epoch parses, but `From<Msg> for SystemTime` panics on it. */
  lemma NegativeSecondsDisagreeWithParse()
    ensures ParseTimestamp(Msg(-1, 0)) == Ok(Time(-NANOS_PER_SEC))
    ensures SystemTimeFromMsg(Msg(-1, 0)) == Panic(InstantSubOverflow)
  {
    SystemTimeFromNegativeSecondsWraps(Msg(-1, 0));
  }

  /** `From<Msg> for SystemTime` with the negative branch corrected: subtract
      the magnitude of `seconds` (`seconds.unsigned_abs()`) from the epoch,
      then add the nanoseconds forward, as protobuf's `Timestamp` and
      `ParseTimestamp` read them. Non-negative seconds are unchanged. */
  function SystemTimeFromMsgCorrected(m: Msg): Outcome<SystemTime> {
    if m.seconds >= 0 then SystemTimeFromMsg(m)
    else
      var magnitude: u64 := -(m.seconds as int);
      var whole := DurationNew(magnitude, 0);
      var sub := DurationNew(0, I32AsU32(m.nanos));
      if whole.Panic? then Panic(whole.reason)
      else if sub.Panic? then Panic(sub.reason)
      else match SubDuration(UNIX_EPOCH, whole.value)
        case Panic(why) => Panic(why)
        case Done(st) => AddDuration(st, sub.value)
  }

  /** The corrected conversion denotes `seconds * 10^9 + (nanos as u32)`
      nanoseconds after the epoch for every message, before the epoch as
      well as after it, and panics only when that instant is outside what a
      `SystemTime` holds, which never happens for negative seconds. */
  lemma CorrectedDenotesTimestamp(m: Msg)
    ensures var r := SystemTimeFromMsgCorrected(m);
      && (r.Done? <==> Representable(m.seconds * NANOS_PER_SEC + I32AsU32(m.nanos)))
      && (r.Done? ==> SinceEpoch(r.value) == m.seconds * NANOS_PER_SEC + I32AsU32(m.nanos))
      && (m.seconds < 0 ==> r.Done?)
  {
    if m.seconds >= 0 {
      SystemTimeFromNonNegativeSeconds(m);
    } else {
      var n := I32AsU32(m.nanos);
      assert (m.seconds * NANOS_PER_SEC + n) / NANOS_PER_SEC <= 4;
    }
  }

  /** The corrected conversion agrees with `ParseTimestamp` on every message
      chrono accepts, including instants before the epoch. */
  lemma CorrectedAgreesWithParse(m: Msg)
    requires ChronoAccepts(m.seconds, I32AsU32(m.nanos))
    requires I32AsU32(m.nanos) < NANOS_PER_SEC
    ensures SystemTimeFromMsgCorrected(m).Done?
    ensures SinceEpoch(SystemTimeFromMsgCorrected(m).value) == ParseTimestamp(m).value.sinceEpoch
  {
    CorrectedDenotesTimestamp(m);
  }
}
