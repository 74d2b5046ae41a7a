/** CLOCK_REALTIME as the harness reads it: a `struct timespec` and the
    whole-second age computed from two of them. */
module Clock {

  const NS := 1_000_000_000

  datatype Timespec = Timespec(sec: int, nsec: nat)

  /** The timespec of a moment given in nanoseconds since the epoch. */
  function At(t: int): (ts: Timespec)
    ensures ts.nsec < NS && ts.sec * NS + ts.nsec == t
  {
    Timespec(t / NS, t % NS)
  }

  /** fuzz_seconds_since, with the clock read passed in. */
  function SecondsSince(now: Timespec, past: Timespec): int {
    var seconds := now.sec - past.sec;
    if now.nsec < past.nsec then seconds - 1 else seconds
  }

  /** The age is the elapsed time rounded down to whole seconds, whatever the
      two fractions are and even if `past` lies in the future: it reaches a
      whole number of seconds exactly when that many have passed. */
  lemma AgeIsElapsedFloor(now: int, past: int, n: int)
    ensures SecondsSince(At(now), At(past)) == (now - past) / 1_000_000_000
    ensures SecondsSince(At(now), At(past)) >= n <==> now - past >= n * 1_000_000_000
  {
    var a, b := At(now), At(past);
    var age := SecondsSince(a, b);
    assert now - past == age * NS + (if a.nsec < b.nsec then a.nsec - b.nsec + NS else a.nsec - b.nsec);
    assert 0 <= now - past - age * NS < NS;
  }
}
