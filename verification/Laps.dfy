/** Counting round a ring: the `m`-th item goes to slot `m` modulo the length of a lap, and laps alternate. */
module Laps {
  import opened Bits

  /** Always true: mentioning it names the item a proof step is about. */
  predicate Nth(m: nat) { true }

  /** True on even laps. */
  predicate LapBit(lap: nat, m: nat)
    requires lap > 0
  {
    (m / lap) % 2 == 0
  }

  lemma {:induction false} LapParts(lap: nat, n: nat)
    requires lap > 0
    ensures n == (n / lap) * lap + n % lap
  {
  }

  lemma {:induction false} NextLap(lap: nat, n: nat)
    requires lap > 1
    ensures (n + 1) % lap == (n % lap + 1) % lap == if n % lap == lap - 1 then 0 else n % lap + 1
    ensures (n + 1) / lap == if n % lap == lap - 1 then n / lap + 1 else n / lap
    ensures LapBit(lap, n + 1) == if n % lap == lap - 1 then !LapBit(lap, n) else LapBit(lap, n)
  {
    var q, r := n / lap, n % lap;
    LapParts(lap, n);
    if r == lap - 1 {
      LapSum(lap, q);
      UniqueQuotient(n + 1, lap, q + 1, 0);
      UniqueQuotient(r + 1, lap, 1, 0);
    } else {
      UniqueQuotient(n + 1, lap, q, r + 1);
      UniqueQuotient(r + 1, lap, 0, r + 1);
    }
    Alternate(q);
  }

  lemma {:induction false} LapSum(lap: nat, q: nat)
    ensures (q + 1) * lap == q * lap + lap
  {
  }

  lemma {:induction false} Alternate(q: nat)
    ensures (q + 1) % 2 == 0 <==> q % 2 != 0
  {
  }

  lemma {:induction false} OneLapOn(lap: nat, n: nat)
    requires lap > 0
    ensures (n + lap) % lap == n % lap && LapBit(lap, n + lap) == !LapBit(lap, n)
  {
    var q := n / lap;
    LapParts(lap, n);
    LapSum(lap, q);
    UniqueQuotient(n + lap, lap, q + 1, n % lap);
    Alternate(q);
  }

  lemma {:induction false} SlotsApart(lap: nat, m: nat, n: nat)
    requires m < n < m + lap
    ensures m % lap != n % lap
  {
    LapParts(lap, m);
    LapParts(lap, n);
    LessThanALap(lap, m / lap, n / lap, m % lap, n % lap);
  }

  lemma {:induction false} LessThanALap(lap: nat, q: nat, q': nat, r: nat, r': nat)
    requires q * lap + r < q' * lap + r' < q * lap + r + lap
    ensures r != r'
  {
    LapSum(lap, q);
    if q' <= q { MulMonotone(q', q, lap); } else { MulMonotone(q + 1, q', lap); }
  }
}
