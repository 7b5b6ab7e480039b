/** Times in seconds and microseconds. */
module TimeVals {
  /** struct timeval; the fields are unbounded here. */
  datatype TimeVal = TimeVal(sec: int, usec: int)

  const MICRO := 1000000

  /** The greatest value of rand(). */
  const RAND_MAX := 0x7fff_ffff

  predicate Normal(t: TimeVal) {
    0 <= t.usec < MICRO
  }

  function Micros(t: TimeVal): int {
    t.sec * MICRO + t.usec
  }

  /** C division and remainder, which truncate toward zero. */
  function Quot(a: int, b: int): int
    requires b > 0
  {
    if a >= 0 then a / b else -((-a) / b)
  }

  function Rem(a: int, b: int): int
    requires b > 0
  {
    a - b * Quot(a, b)
  }

  function Compare(a: TimeVal, b: TimeVal): int {
    if a.sec < b.sec then -1
    else if a.sec > b.sec then 1
    else if a.usec < b.usec then -1
    else if a.usec > b.usec then 1
    else 0
  }

  function Diff(a: TimeVal, b: TimeVal): int
    decreases if Compare(a, b) < 0 then 1 else 0
  {
    if Compare(a, b) < 0 then -Diff(b, a)
    else (a.sec - b.sec) * MICRO + a.usec - b.usec
  }

  /** avahi_timeval_add on the value of the struct. */
  function Add(a: TimeVal, usec: int): TimeVal {
    var u := usec + a.usec;
    if u < 0 then TimeVal(a.sec + (-1 + Quot(u, MICRO)), MICRO + Rem(u, MICRO))
    else TimeVal(a.sec + Quot(u, MICRO), Rem(u, MICRO))
  }

  /** avahi_elapse_time; the jitter is the fraction rand / (RAND_MAX + 1) of its maximum, rounded down. */
  function ElapseTime(now: TimeVal, msec: nat, jitter: nat, rand: nat): TimeVal {
    var t := if msec > 0 then Add(now, msec * 1000) else now;
    if jitter > 0 then Add(t, jitter * 1000 * rand / (RAND_MAX + 1)) else t
  }

  /** The order of the fields is the order of time exactly on normal values. */
  lemma CompareIsOrder(a: TimeVal, b: TimeVal)
    requires Normal(a) && Normal(b)
    ensures Compare(a, b) < 0 <==> Micros(a) < Micros(b)
    ensures Compare(a, b) == 0 <==> a == b
    ensures Compare(a, b) == 0 <==> Micros(a) == Micros(b)
  {
  }

  lemma DiffIsExact(a: TimeVal, b: TimeVal)
    ensures Diff(a, b) == Micros(a) - Micros(b)
  {
    if Compare(a, b) < 0 {
      assert Diff(b, a) == Micros(b) - Micros(a);
    }
  }

  /** Adding moves the time by exactly the amount asked for, in either direction. */
  lemma AddIsExact(a: TimeVal, usec: int)
    ensures Micros(Add(a, usec)) == Micros(a) + usec
    ensures Diff(Add(a, usec), a) == usec
    ensures Micros(Add(Add(a, usec), -usec)) == Micros(a)
  {
    DiffIsExact(Add(a, usec), a);
  }

  /** The result is normal unless the sum is a negative whole number of seconds. */
  lemma AddNormal(a: TimeVal, usec: int)
    ensures Normal(Add(a, usec)) <==> !(usec + a.usec < 0 && (usec + a.usec) % MICRO == 0)
    ensures !Normal(Add(a, usec)) ==> Add(a, usec).usec == MICRO
  {
    var u := usec + a.usec;
    if u < 0 {
      var q, r := (-u) / MICRO, (-u) % MICRO;
      assert u == -(MICRO * q) - r;
      assert Rem(u, MICRO) == -r;
      NegativeMultiple(q, r);
    }
  }

  lemma NegativeMultiple(q: int, r: int)
    requires 0 <= r < MICRO
    ensures (-(MICRO * q) - r) % MICRO == 0 <==> r == 0
  {
    assert -(MICRO * q) - r == MICRO * (-q - 1) + (MICRO - r);
  }

  /** What that means for the order: one second before 10 s is 9 s, but compares as earlier than 9 s. */
  lemma AddBreaksOrder()
    ensures var t := Add(TimeVal(10, 0), -1000000);
            Micros(t) == Micros(TimeVal(9, 0)) && Compare(t, TimeVal(9, 0)) < 0
  {
    assert Quot(-1000000, MICRO) == -1;
  }

  lemma FractionBelow(width: nat, k: nat, n: nat)
    requires width > 0 && k < n
    ensures 0 <= width * k / n < width
  {
    var q := width * k / n;
    assert width * k == n * q + width * k % n;
    assert n * (width - q) == width * (n - k) + width * k % n;
    SignOfProduct(width, n - k);
    SignOfProduct(n, width - q);
  }

  lemma SignOfProduct(a: nat, b: int)
    requires a > 0
    ensures a * b > 0 <==> b > 0
  {
  }

  /** The time that passes: what was asked for, and less than the jitter on top of it. */
  lemma ElapsesInTime(now: TimeVal, msec: nat, jitter: nat, rand: nat)
    requires rand <= RAND_MAX
    ensures var passed := Micros(ElapseTime(now, msec, jitter, rand)) - Micros(now);
            if jitter == 0 then passed == msec * 1000 else msec * 1000 <= passed < (msec + jitter) * 1000
  {
    AddIsExact(now, msec * 1000);
    if jitter > 0 {
      var t := if msec > 0 then Add(now, msec * 1000) else now;
      FractionBelow(jitter * 1000, rand, RAND_MAX + 1);
      AddIsExact(t, jitter * 1000 * rand / (RAND_MAX + 1));
    }
  }

  /** An age in whole milliseconds, compared with a limit. */
  lemma AgeInMillis(now: TimeVal, before: TimeVal, limit: nat)
    ensures Quot(Diff(now, before), 1000) <= limit <==> Micros(now) - Micros(before) < (limit + 1) * 1000
  {
    DiffIsExact(now, before);
  }
}
