/** `Stopwatch`: measures the time between clock readings. `Instant::now()` is not
    modelled; every operation that reads the clock takes the reading `now` instead.
    Instants and durations are whole nanoseconds. */
module Time {
  import opened Common
  import opened Arith

  /** A `Duration`, in nanoseconds. */
  type Duration = nat

  /** An `Instant`: a reading of the monotonic clock, in nanoseconds. */
  type Instant = nat

  const NANOS_PER_SEC: nat := 1_000_000_000
  const NANOS_PER_MILLI: nat := 1_000_000

  /** `Duration::as_secs`: the whole seconds. */
  function AsSecs(d: Duration): nat
  {
    d / NANOS_PER_SEC
  }

  /** `Duration::subsec_nanos`: the nanoseconds past the whole seconds. */
  function SubsecNanos(d: Duration): nat
  {
    d % NANOS_PER_SEC
  }

  /** `Instant::elapsed` read at `now`: the time since `start`, saturating at zero as
      `Instant::duration_since` does. */
  function Since(start: Instant, now: Instant): (d: Duration)
    ensures now >= start ==> start + d == now
    ensures now < start ==> d == 0
  {
    if now >= start then now - start else 0
  }

  /** Milliseconds from whole seconds and sub-second nanoseconds are the whole
      milliseconds of the duration. */
  lemma MillisOfDuration(d: Duration)
    ensures AsSecs(d) * 1000 + SubsecNanos(d) / NANOS_PER_MILLI == d / NANOS_PER_MILLI
  {
    var s, n := AsSecs(d), SubsecNanos(d);
    var m, r := n / NANOS_PER_MILLI, n % NANOS_PER_MILLI;
    assert d == s * NANOS_PER_SEC + n;
    assert n == m * NANOS_PER_MILLI + r;
    assert d == (s * 1000 + m) * NANOS_PER_MILLI + r;
    DivModUnique(d, NANOS_PER_MILLI, s * 1000 + m, r);
  }

  class Stopwatch {
    var start: Option<Instant>
    var elapsed: Duration

    /** `Stopwatch::new`: stopped, with nothing elapsed. */
    constructor ()
      ensures start == None && elapsed == 0
    {
      start := None;
      elapsed := 0;
    }

    /** `Stopwatch::start_new`: a new stopwatch started at `now`. */
    static method StartNew(now: Instant) returns (sw: Stopwatch)
      ensures fresh(sw) && sw.start == Some(now) && sw.elapsed == 0
      ensures forall later :: later >= now ==> sw.Elapsed(later) == later - now
    {
      sw := new Stopwatch();
      sw.Start(now);
    }

    /** `start`: runs from `now`; the stored duration is kept but no longer read. */
    method Start(now: Instant)
      modifies this
      ensures start == Some(now) && elapsed == old(elapsed)
    {
      start := Some(now);
    }

    /** `stop`: stores what has elapsed at `now` and stops, so that the elapsed time
        stays at that value whenever it is read later. */
    method Stop(now: Instant)
      modifies this
      ensures start == None && elapsed == old(Elapsed(now))
      ensures forall later :: Elapsed(later) == old(Elapsed(now))
    {
      elapsed := Elapsed(now);
      start := None;
    }

    /** `restart`: stores what has elapsed at `now` and runs again from `now`. The stored
        duration is not added to what elapses from then on. */
    method Restart(now: Instant)
      modifies this
      ensures start == Some(now) && elapsed == old(Elapsed(now))
      ensures forall later :: later >= now ==> Elapsed(later) == later - now
    {
      elapsed := Elapsed(now);
      start := Some(now);
    }

    /** `reset`: stopped, with nothing elapsed. */
    method Reset()
      modifies this
      ensures start == None && elapsed == 0
      ensures forall later :: Elapsed(later) == 0
    {
      elapsed := 0;
      start := None;
    }

    /** `elapsed` at `now`: the time since the start while running, the stored duration
        while stopped. */
    function Elapsed(now: Instant): (d: Duration)
      reads this
      ensures start.None? ==> d == elapsed
      ensures start.Some? && now >= start.value ==> start.value + d == now
    {
      match start
      case Some(s) => Since(s, now)
      case None => elapsed
    }

    /** `elapsed_ms` at `now`: the whole milliseconds elapsed. */
    function ElapsedMs(now: Instant): (ms: nat)
      reads this
      ensures ms == Elapsed(now) / NANOS_PER_MILLI
    {
      var dur := Elapsed(now);
      MillisOfDuration(dur);
      AsSecs(dur) * 1000 + SubsecNanos(dur) / NANOS_PER_MILLI
    }
  }
}
