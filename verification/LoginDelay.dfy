/** The progressive delay after failed logins (server/app/authentication.go).
    Durations are nanoseconds in 64-bit signed integers. */
module LoginDelay {
  const BASE := 250_000_000

  function Wrap(n: int): int { (n + 0x8000_0000_0000_0000) % 0x1_0000_0000_0000_0000 - 0x8000_0000_0000_0000 }

  predicate Int64(n: int) { Wrap(n) == n }

  function Power(n: nat): nat { if n == 0 then 1 else 2 * Power(n - 1) }

  /** The base doubled n times, as the machine computes it. */
  function Doubled(n: nat): int { if n == 0 then BASE else Wrap(2 * Doubled(n - 1)) }

  /** What the policy promises: nothing below the threshold, then the base,
      doubled by each further failure, up to the maximum. */
  function Promised(failures: int, threshold: int, maximum: int): int {
    if threshold <= 0 || maximum <= 0 || failures < threshold then 0
    else
      var delay := BASE * Power(failures - threshold);
      if delay < maximum then delay else maximum
  }

  /** The policy's promise step by step: nothing without a threshold or a maximum or
      below the threshold, a quarter of a second at it, and with each further
      failure twice what it was, never more than the maximum. */
  lemma PromisedDoubles(failures: int, threshold: int, maximum: int)
    ensures Promised(failures, threshold, maximum)
            == if threshold <= 0 || maximum <= 0 || failures < threshold then 0
               else if failures == threshold then (if maximum <= 250_000_000 then maximum else 250_000_000)
               else var twice := 2 * Promised(failures - 1, threshold, maximum); if maximum <= twice then maximum else twice
  {
    if 0 < threshold < failures {
      assert Power(failures - threshold) == 2 * Power(failures - 1 - threshold);
    }
  }

  /** 35 doublings fit. */
  const LARGEST := BASE * 0x8_0000_0000

  lemma {:induction false} PowerMonotone(m: nat, n: nat)
    requires m <= n
    ensures 1 <= Power(m) <= Power(n)
  {
    if m < n { PowerMonotone(m, n - 1); } else if m > 0 { PowerMonotone(m - 1, n - 1); }
  }

  lemma Power35()
    ensures Power(35) == 0x8_0000_0000
  {
    assert Power(5) == 32;
    assert Power(10) == 1024;
    assert Power(15) == 0x8000;
    assert Power(20) == 0x10_0000;
    assert Power(25) == 0x200_0000;
    assert Power(30) == 0x4000_0000;
  }

  lemma PowerFits(n: nat)
    requires n <= 35
    ensures 0 < BASE * Power(n) <= LARGEST
  {
    Power35();
    PowerMonotone(n, 35);
  }

  lemma WrapFits(x: int)
    requires 0 <= x <= LARGEST
    ensures Wrap(x) == x
  {
  }

  lemma {:induction false} DoubledExact(n: nat)
    requires n <= 35
    ensures Doubled(n) == BASE * Power(n) <= LARGEST
  {
    PowerFits(n);
    if n > 0 {
      DoubledExact(n - 1);
      DoubledNext(n - 1, BASE * Power(n - 1));
    }
  }

  lemma DoubledNext(n: nat, d: int)
    requires Doubled(n) == d && 0 <= 2 * d <= LARGEST
    ensures Doubled(n + 1) == 2 * d
  {
    WrapFits(2 * d);
  }

  /** The values from the 36th doubling until nothing is left. */
  const WRAPPED := [-1266874889709551616, -2533749779419103232, -5067499558838206464, 8311744956033138688,
    -1823254161643274240, -3646508323286548480, -7293016646573096960, 3860710780563357696,
    7721421561126715392, -3003900951456120832, -6007801902912241664, 6431140267885068288,
    -5584463537939415040, 7277816997830721536, -3891110078048108544, -7782220156096217088,
    2882303761517117440, 5764607523034234880, -6917529027641081856, 4611686018427387904,
    -9223372036854775808, 0]

  /** The i-th of those values, and then zero. */
  function WrappedAt(i: nat): int { if i < |WRAPPED| then WRAPPED[i] else 0 }

  lemma WrappedStep(i: nat)
    ensures Wrap(2 * WrappedAt(i)) == WrappedAt(i + 1) && WrappedAt(i) < LARGEST && WrappedAt(i + 1) < LARGEST
  {
    if i < 11 {} else if i < |WRAPPED| {}
  }

  lemma {:induction false} DoubledFrom(f: nat -> int, n: nat)
    requires n >= 36 && f(0) == Doubled(36) && forall i: nat :: Wrap(2 * f(i)) == f(i + 1)
    ensures Doubled(n) == f(n - 36)
  {
    if n > 36 {
      DoubledFrom(f, n - 1);
      assert Wrap(2 * f(n - 37)) == f(n - 36);
    }
  }

  lemma LastExact(n: nat)
    requires n == 35
    ensures Doubled(n) == LARGEST
  {
    DoubledExact(n);
    Power35();
  }

  lemma WrapLargest(d: int, next: int)
    requires d == LARGEST && next == Wrap(2 * d)
    ensures next == WrappedAt(0)
  {
  }

  lemma FirstWrapped(n: nat)
    requires n == 36
    ensures Doubled(n) == WrappedAt(0)
  {
    LastExact(n - 1);
    WrapLargest(Doubled(n - 1), Doubled(n));
  }

  /** From the 36th doubling on the machine's value never again reaches the
      largest exact one. */
  lemma DoubledWrapped(n: nat)
    requires n >= 36
    ensures Doubled(n) < LARGEST
  {
    FirstWrapped(36);
    forall i: nat ensures Wrap(2 * WrappedAt(i)) == WrappedAt(i + 1) { WrappedStep(i); }
    DoubledFrom(WrappedAt, n);
    WrappedStep(n - 36);
  }

  /** The loop; its result is the promised delay exactly when the maximum or the
      number of doublings keeps clear of overflow. */
  method LoginFailureDelay(failures: int, threshold: int, maximum: int) returns (r: int)
    requires Int64(failures) && Int64(threshold) && Int64(maximum)
    ensures r == Promised(failures, threshold, maximum) <==>
              threshold <= 0 || maximum <= LARGEST || failures - threshold <= 35
  {
    if threshold <= 0 || maximum <= 0 || failures < threshold { return 0; }
    var delay, steps := BASE, failures - threshold;
    ghost var n := 0;
    while steps > 0 && delay < maximum
      invariant 0 <= steps && n == failures - threshold - steps && delay == Doubled(n)
      invariant forall k :: 0 <= k < n ==> Doubled(k) < maximum
      decreases steps
    {
      delay, steps, n := Wrap(delay * 2), steps - 1, n + 1;
    }
    r := if delay < maximum then delay else maximum;
    DelayExact(failures - threshold, maximum, n);
  }

  lemma DelayExact(total: nat, maximum: int, n: nat)
    requires 0 < maximum && n <= total && (n == total || Doubled(n) >= maximum)
    requires forall k :: 0 <= k < n ==> Doubled(k) < maximum
    ensures var promised := BASE * Power(total);
            (if Doubled(n) < maximum then Doubled(n) else maximum) == (if promised < maximum then promised else maximum)
            <==> maximum <= LARGEST || total <= 35
  {
    Power35();
    PowerMonotone(n, total);
    if n <= 35 {
      DoubledExact(n);
    } else {
      DoubledExact(35);
      DoubledWrapped(n);
      PowerMonotone(35, total);
    }
  }
}
