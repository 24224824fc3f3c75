/** The parts of Rust's `std::time` that the timestamp conversions rely on,
    as the standard library implements them on Unix platforms: a `Duration`
    is whole seconds (`u64`) plus a sub-second part below 10^9 nanoseconds; a
    `SystemTime` is a `timespec` of `i64` seconds plus sub-second nanoseconds.
    Arithmetic that leaves these ranges panics. */
module StdTime {
  import opened Wrappers
  import opened Ints

  const NANOS_PER_SEC: int := 1_000_000_000

  type Subsec = x: int | 0 <= x < 1_000_000_000

  datatype Duration = Duration(secs: u64, nanos: Subsec)

  /** The length of a duration in nanoseconds. */
  function DurationNanos(d: Duration): int {
    d.secs * NANOS_PER_SEC + d.nanos
  }

  datatype SystemTime = SystemTime(tvSec: i64, tvNsec: Subsec)

  const UNIX_EPOCH: SystemTime := SystemTime(0, 0)

  /** Signed nanoseconds between the epoch and `st`. */
  function SinceEpoch(st: SystemTime): int {
    st.tvSec * NANOS_PER_SEC + st.tvNsec
  }

  /** An instant, in nanoseconds since the epoch, that a `SystemTime` can hold:
      its whole seconds (rounded toward minus infinity) fit in an `i64`. */
  predicate Representable(t: int) {
    MIN_I64 <= t / NANOS_PER_SEC <= MAX_I64
  }

  lemma {:induction false} SplitNanos(s: int, n: int)
    requires 0 <= n < NANOS_PER_SEC
    ensures (s * NANOS_PER_SEC + n) / NANOS_PER_SEC == s
    ensures (s * NANOS_PER_SEC + n) % NANOS_PER_SEC == n
  {
  }

  /** `Duration::new(secs, nanos)`: nanoseconds beyond a second are carried
      into the seconds; panics when the carried seconds overflow a `u64`. */
  function DurationNew(secs: u64, nanos: u32): (r: Outcome<Duration>)
    ensures r.Done? <==> secs + nanos / NANOS_PER_SEC <= MAX_U64
    ensures r.Done? ==> DurationNanos(r.value) == secs * NANOS_PER_SEC + nanos
    ensures r.Panic? ==> r.reason == DurationNewOverflow
  {
    var s := secs + nanos / NANOS_PER_SEC;
    if s <= MAX_U64 then Done(Duration(s, nanos % NANOS_PER_SEC))
    else Panic(DurationNewOverflow)
  }

  /** `Duration::from_nanos(n)`. */
  function DurationFromNanos(n: u64): (d: Duration)
    ensures DurationNanos(d) == n
    ensures d.secs == n / NANOS_PER_SEC && d.nanos == n % NANOS_PER_SEC
  {
    Duration(n / NANOS_PER_SEC, n % NANOS_PER_SEC)
  }

  /** `st + d`: adds the seconds, then carries a sub-second overflow;
      panics when the seconds leave the `i64` range. */
  function AddDuration(st: SystemTime, d: Duration): (r: Outcome<SystemTime>)
    ensures r.Done? <==> Representable(SinceEpoch(st) + DurationNanos(d))
    ensures r.Done? ==> SinceEpoch(r.value) == SinceEpoch(st) + DurationNanos(d)
    ensures r.Panic? ==> r.reason == InstantAddOverflow
  {
    var secs := st.tvSec + d.secs;
    var nsec := st.tvNsec + d.nanos;
    var carry := if nsec >= NANOS_PER_SEC then 1 else 0;
    SplitNanos(secs + carry, nsec - carry * NANOS_PER_SEC);
    if secs > MAX_I64 then Panic(InstantAddOverflow)
    else if secs + carry > MAX_I64 then Panic(InstantAddOverflow)
    else Done(SystemTime(secs + carry, nsec - carry * NANOS_PER_SEC))
  }

  /** `st - d`: subtracts the seconds, then borrows for a sub-second
      underflow; panics when the seconds leave the `i64` range. */
  function SubDuration(st: SystemTime, d: Duration): (r: Outcome<SystemTime>)
    ensures r.Done? <==> Representable(SinceEpoch(st) - DurationNanos(d))
    ensures r.Done? ==> SinceEpoch(r.value) == SinceEpoch(st) - DurationNanos(d)
    ensures r.Panic? ==> r.reason == InstantSubOverflow
  {
    var secs := st.tvSec - d.secs;
    var borrow := if st.tvNsec < d.nanos then 1 else 0;
    SplitNanos(secs - borrow, st.tvNsec + borrow * NANOS_PER_SEC - d.nanos);
    if secs < MIN_I64 then Panic(InstantSubOverflow)
    else if secs - borrow < MIN_I64 then Panic(InstantSubOverflow)
    else Done(SystemTime(secs - borrow, st.tvNsec + borrow * NANOS_PER_SEC - d.nanos))
  }
}
