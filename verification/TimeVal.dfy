/** Times of the recorder and player: seconds and microseconds, and the speed shift. */
module TimeVal {
  import opened Division

  const MICRO: int := 1_000_000

  datatype Time = Time(sec: int, usec: int)

  predicate Normal(t: Time) {
    0 <= t.usec < MICRO
  }

  function Total(t: Time): int {
    t.sec * MICRO + t.usec
  }

  /** The scale of a speed setting, which is clamped to eight steps either way. */
  function Scale(steps: nat): (k: nat)
    ensures 1 <= k <= 256
  {
    match steps
    case 0 => 1
    case 1 => 2
    case 2 => 4
    case 3 => 8
    case 4 => 16
    case 5 => 32
    case 6 => 64
    case 7 => 128
    case _ => 256
  }

  function Power2(n: nat): nat {
    if n == 0 then 1 else 2 * Power2(n - 1)
  }

  lemma ScaleIsPower(steps: nat)
    ensures Scale(steps) == Power2(if steps > 8 then 8 else steps)
  {
    assert Power2(0) == 1 && Power2(1) == 2 && Power2(2) == 4 && Power2(3) == 8 && Power2(4) == 16;
    assert Power2(5) == 32 && Power2(6) == 64 && Power2(7) == 128 && Power2(8) == 256;
  }

  function Add(a: Time, b: Time): Time {
    var sec, usec := b.sec + a.sec, b.usec + a.usec;
    if usec >= MICRO then Time(sec + 1, usec - MICRO) else Time(sec, usec)
  }

  /** The time from `a` to `b`. */
  function Diff(a: Time, b: Time): Time {
    var sec, usec := b.sec - a.sec, b.usec - a.usec;
    if usec < 0 then Time(sec - 1, usec + MICRO) else Time(sec, usec)
  }

  /** `>>` is floor division and masking is the remainder, also for negative seconds. */
  function Shift(t: Time, shift: int): Time {
    if shift < 0 then
      var k := Scale(-shift);
      Time(t.sec * k + t.usec * k / MICRO, t.usec * k % MICRO)
    else if shift > 0 then
      var k := Scale(shift);
      Time(t.sec / k, (t.sec % k * MICRO + t.usec) / k)
    else t
  }

  function Cmp(a: Time, b: Time): int {
    if a.sec < b.sec then -1
    else if a.sec > b.sec then 1
    else if a.usec < b.usec then -1
    else if a.usec > b.usec then 1
    else 0
  }

  lemma AddDiffExact(a: Time, b: Time)
    requires Normal(a) && Normal(b)
    ensures Normal(Add(a, b)) && Total(Add(a, b)) == Total(a) + Total(b)
    ensures Normal(Diff(a, b)) && Total(Diff(a, b)) == Total(b) - Total(a)
    ensures Add(a, Diff(a, b)) == b
    ensures Cmp(a, b) == if Total(a) < Total(b) then -1 else if Total(a) > Total(b) then 1 else 0
  {
  }

  lemma DivideSplit(k: int, q: int, r: int, m: int, u: int)
    requires k > 0
    ensures ((k * q + r) * m + u) / k == q * m + (r * m + u) / k
  {
    var x := r * m + u;
    var n := x / k;
    assert x == k * n + x % k;
    calc {
      (k * q + r) * m + u;
      k * q * m + x;
      k * (q * m) + k * n + x % k;
      k * (q * m + n) + x % k;
    }
    QuotientUnique((k * q + r) * m + u, k, q * m + n, x % k);
  }

  lemma DivideBound(x: int, k: int, m: int)
    requires k > 0 && 0 <= x < k * m
    ensures 0 <= x / k < m
  {
    assert x == k * (x / k) + x % k;
    MulMonotone(k, m, x / k);
  }

  /** Speeding up divides the total number of microseconds, rounding down; the intermediate
      microseconds stay far below the 32-bit limit whatever the seconds are. */
  lemma ShiftDown(t: Time, shift: int)
    requires Normal(t) && 0 < shift
    ensures Normal(Shift(t, shift)) && Total(Shift(t, shift)) == Total(t) / Scale(shift)
    ensures 0 <= t.sec % Scale(shift) * MICRO + t.usec < 0x8000_0000
  {
    var k := Scale(shift);
    var q, r := t.sec / k, t.sec % k;
    assert t.sec == k * q + r;
    DivideSplit(k, q, r, MICRO, t.usec);
    assert r * MICRO <= (k - 1) * MICRO;
    DivideBound(r * MICRO + t.usec, k, MICRO);
  }

  /** Slowing down multiplies it. */
  lemma ShiftUp(t: Time, shift: int)
    requires Normal(t) && shift < 0
    ensures Normal(Shift(t, shift)) && Total(Shift(t, shift)) == Total(t) * Scale(-shift)
  {
    var k := Scale(-shift);
    assert t.usec * k == t.usec * k / MICRO * MICRO + t.usec * k % MICRO;
    assert (t.sec * k + t.usec * k / MICRO) * MICRO == t.sec * k * MICRO + t.usec * k / MICRO * MICRO;
    assert (t.sec * MICRO + t.usec) * k == t.sec * k * MICRO + t.usec * k;
  }

  lemma TotalInjective(a: Time, b: Time)
    requires Normal(a) && Normal(b) && Total(a) == Total(b)
    ensures a == b
  {
  }

  /** Slowing down and then speeding up by the same number of steps changes nothing. */
  lemma ShiftRoundTrip(t: Time, steps: int)
    requires Normal(t) && 0 <= steps
    ensures Shift(Shift(t, -steps), steps) == t
  {
    if steps > 0 {
      var u := Shift(t, -steps);
      ShiftUp(t, -steps);
      ShiftDown(u, steps);
      assert Total(t) * Scale(steps) / Scale(steps) == Total(t) by {
        DivideSplit(Scale(steps), Total(t), 0, 1, 0);
      }
      TotalInjective(Shift(u, steps), t);
    }
  }

  /** Shifting keeps the order of times. */
  lemma ShiftMonotone(a: Time, b: Time, shift: int)
    requires Normal(a) && Normal(b) && Total(a) <= Total(b)
    ensures Total(Shift(a, shift)) <= Total(Shift(b, shift))
  {
    if shift > 0 {
      ShiftDown(a, shift);
      ShiftDown(b, shift);
      var k := Scale(shift);
      var x, y := Total(a), Total(b);
      assert x == k * (x / k) + x % k && y == k * (y / k) + y % k;
      MulMonotone(k, y / k + 1, x / k);
    } else if shift < 0 {
      ShiftUp(a, shift);
      ShiftUp(b, shift);
      assert Total(a) * Scale(-shift) <= Total(b) * Scale(-shift);
    }
  }
}
