/** The linear congruential generator of etherboot, and the timeouts SLAM draws from it. */
module Random {
  const MODULUS: int := 2147483563
  const FACTOR: int := 40014
  const RAND_MAX: int := 2147483647
  const TICKS_PER_SEC: int := 18

  const INITIAL_MIN: int := TICKS_PER_SEC / 3
  const INITIAL_INTERVAL: int := TICKS_PER_SEC
  const BASE_MIN: int := 2 * TICKS_PER_SEC
  const BASE_INTERVAL: int := 4 * TICKS_PER_SEC
  const BACKOFF_LIMIT: int := 5

  predicate Int32(x: int)
  {
    -0x8000_0000 <= x < 0x8000_0000
  }

  predicate Seeded(seed: int)
  {
    1 <= seed < MODULUS
  }

  /** 40014 * INVERSE == 1 + MODULUS * TIMES */
  const INVERSE: int := 2082061899
  const TIMES: int := 38795

  /** The factor can be divided out: only multiples of the modulus become multiples. */
  lemma FactorInvertible(seed: int, m: int)
    requires FACTOR * seed == MODULUS * m
    ensures seed == MODULUS * (m * INVERSE - TIMES * seed)
  {
  }

  lemma NeverZero(seed: int)
    requires Seeded(seed)
    ensures FACTOR * seed % MODULUS != 0
  {
    if FACTOR * seed % MODULUS == 0 {
      FactorInvertible(seed, FACTOR * seed / MODULUS);
    }
  }

  /** Computing with the quotient by 53668 stays within 32 bits and comes out a multiple of
      the modulus off at most. */
  lemma Schrage(seed: int)
    requires Seeded(seed)
    ensures var q := seed / 53668;
            var next := FACTOR * (seed - 53668 * q) - 12211 * q;
            && Int32(FACTOR * (seed - 53668 * q)) && Int32(12211 * q) && Int32(next)
            && FACTOR * seed % MODULUS == if next < 0 then next + MODULUS else next
  {
    var q := seed / 53668;
    var next := FACTOR * (seed - 53668 * q) - 12211 * q;
    assert FACTOR * seed == MODULUS * q + next;
    Remainder(FACTOR * seed, q, next);
  }

  lemma Remainder(x: int, q: int, next: int)
    requires x == MODULUS * q + next && -MODULUS < next < MODULUS
    ensures x % MODULUS == if next < 0 then next + MODULUS else next
  {
  }

  class Generator {
    var seed: int

    /** The next number: 40014 times the last one, modulo 2147483563, and never zero. */
    method Next() returns (r: int)
      requires Seeded(seed)
      modifies this
      ensures r == seed == FACTOR * old(seed) % MODULUS && Seeded(seed)
    {
      Schrage(seed);
      NeverZero(seed);
      var q := seed / 53668;
      seed := FACTOR * (seed - 53668 * q) - 12211 * q;
      if seed < 0 {
        seed := seed + MODULUS;
      }
      return seed;
    }

    /** slam_sleep_interval: at least the minimum, and at most the doubling range more. */
    method SleepInterval(exp: int) returns (interval: int)
      requires Seeded(seed)
      modifies this
      ensures Seeded(seed)
      ensures exp < 0 ==> INITIAL_MIN <= interval <= INITIAL_MIN + INITIAL_INTERVAL
      ensures exp >= 0 ==> BASE_MIN <= interval <= BASE_MIN + Doubled(exp)
      ensures exp < 0 ==> interval == 6 + seed / 119304647
      ensures exp == 0 ==> interval == 36 + seed / 29826161
      ensures exp >= 5 ==> interval == 36 + seed / 932067
    {
      var e := exp;
      var divisor;
      if e < 0 {
        divisor := RAND_MAX / INITIAL_INTERVAL;
      } else {
        if e > BACKOFF_LIMIT {
          e := BACKOFF_LIMIT;
        }
        divisor := RAND_MAX / Doubled(e);
      }
      var r := Next();
      Quotient(r, e);
      interval := r / divisor;
      interval := interval + (if e < 0 then INITIAL_MIN else BASE_MIN);
    }
  }

  /** range << min(exp, 5) */
  function Doubled(exp: int): (range: int)
    requires exp >= 0
    ensures BASE_INTERVAL <= range <= 32 * BASE_INTERVAL
  {
    if exp == 0 then BASE_INTERVAL else if exp == 1 then 2 * BASE_INTERVAL else if exp == 2 then 4 * BASE_INTERVAL
    else if exp == 3 then 8 * BASE_INTERVAL else if exp == 4 then 16 * BASE_INTERVAL else 32 * BASE_INTERVAL
  }

  lemma Quotient(r: int, e: int)
    requires Seeded(r)
    ensures e < 0 ==> 0 <= r / (RAND_MAX / INITIAL_INTERVAL) <= INITIAL_INTERVAL
    ensures e >= 0 ==> 0 <= r / (RAND_MAX / Doubled(e)) <= Doubled(e)
  {
  }
}
