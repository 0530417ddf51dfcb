/** The 64-by-32-bit division of the 32-bit build and the time conversions built on it:
    `include/serval/platform.h` and `src/stack/platform.c`. Machine words are integers
    with their width written out. */
module Division {
  import opened Wrappers

  const TWO31: int := 0x8000_0000
  const TWO63: int := 0x8000_0000_0000_0000
  const TWO64: int := 0x1_0000_0000_0000_0000

  /** Conversion to a signed word of 2 * half values. */
  function Signed(x: int, half: int): (r: int)
    requires half > 0
    ensures -half <= r < half
  {
    var y := x % (2 * half);
    if y < half then y else y - 2 * half
  }

  lemma SignedInRange(x: int, half: int)
    requires half > 0
    ensures Signed(x, half) == x <==> -half <= x < half
  {
    if -half <= x < half {
      if x >= 0 {
        DivModIs(x, 2 * half, 0, x);
      } else {
        DivModIs(x, 2 * half, -1, x + 2 * half);
      }
    }
  }

  /** Adding or dropping whole turns does not change a wrapped value. */
  lemma SignedShift(x: int, y: int, k: int, half: int)
    requires half > 0 && x == y + k * (2 * half)
    ensures Signed(x, half) == Signed(y, half)
  {
    var w := 2 * half;
    assert y == (y / w) * w + y % w;
    assert x == (y / w + k) * w + y % w;
    DivModIs(x, w, y / w + k, y % w);
  }

  lemma MulBound(k: int, base: int)
    requires base > 0
    ensures k >= 1 ==> k * base >= base
    ensures k <= -1 ==> k * base <= -base
  {
  }

  lemma DivModIs(n: int, base: int, q: int, r: int)
    requires base > 0 && n == q * base + r && 0 <= r < base
    ensures n / base == q && n % base == r
  {
    var k := n / base - q;
    assert n == (n / base) * base + n % base;
    assert k * base == r - n % base;
    MulBound(k, base);
  }

  function Pow2(k: nat): (r: int)
    ensures r >= 1
  {
    if k == 0 then 1 else 2 * Pow2(k - 1)
  }

  /** 64-bit unsigned arithmetic wraps. */
  function Wrap64(x: int): (r: int)
    ensures 0 <= r < TWO64
    ensures 0 <= x < TWO64 ==> r == x
  {
    x % 0x1_0000_0000_0000_0000
  }

  lemma Scale(base: int, k: nat)
    requires base >= 1
    ensures base * Pow2(k + 1) == 2 * (base * Pow2(k)) && Pow2(k) <= base * Pow2(k)
  {
  }

  /** The doubling loop of __div64_32. */
  method Double(rem: int, base: int) returns (b: int, d: int, ghost k: nat)
    requires 0 <= rem < TWO64 && 0 < base < TWO32
    ensures d == Pow2(k) && b == base * Pow2(k) && rem < 2 * b && b < TWO64
  {
    b, d, k := base, 1, 0;
    while 0 < b < TWO63 && b < rem
      invariant d == Pow2(k) && b == base * Pow2(k) && 1 <= d <= b < TWO64
      decreases TWO64 - b
    {
      Scale(base, k);
      Scale(base, k + 1);
      b := Wrap64(b + b);
      d := Wrap64(d + d);
      k := k + 1;
    }
  }

  /** The halving loop of __div64_32: shift-and-subtract down to the divisor itself. */
  method Halve(n: int, base: int, rem0: int, res0: int, b0: int, d0: int, ghost k0: nat) returns (res: int, rem: int)
    requires 0 <= n < TWO64 && 0 < base < TWO32
    requires d0 == Pow2(k0) && b0 == base * Pow2(k0) && b0 < TWO64
    requires 0 <= rem0 < 2 * b0 && 0 <= res0 && n == res0 * base + rem0
    ensures n == res * base + rem && 0 <= rem < base && 0 <= res < TWO64
  {
    var b, d := b0, d0;
    ghost var k := k0;
    rem, res := rem0, res0;
    var more := true;
    while more
      invariant 0 <= rem && 0 <= res && n == res * base + rem
      invariant if more then d == Pow2(k) && b == base * Pow2(k) && b < TWO64 && rem < 2 * b else rem < base
      decreases more, k
    {
      if rem >= b {
        Distribute(res, d, base);
        ResFits(n, res + d, base);
        rem := Wrap64(rem - b);
        res := Wrap64(res + d);
      }
      if k > 0 {
        Scale(base, k - 1);
        k := k - 1;
      }
      b, d := b / 2, d / 2;
      more := d != 0;
    }
    ResFits(n, res, base);
  }

  lemma Distribute(res: int, d: int, base: int)
    ensures (res + d) * base == res * base + base * d
  {
  }

  lemma ResFits(n: int, res: int, base: int)
    requires 0 <= res && base >= 1 && res * base <= n
    ensures res <= n
  {
  }

  /** The division is the one with the remainder below the divisor, and there is only one. */
  predicate Divides(n: int, base: int, q: int, r: int) {
    n == q * base + r && 0 <= r < base
  }

  lemma QuotientTimes(high: int, base: int) returns (h: int, r: int)
    requires 0 <= high && 0 < base
    ensures h == high / base && h * base + r == high && 0 <= r && 0 <= h <= high
  {
    h, r := high / base, high % base;
    ResFits(high, h, base);
  }

  lemma ShiftOut(h: int, base: int)
    ensures (h * 0x1_0000_0000) * base == (h * base) * 0x1_0000_0000
  {
  }

  /** The first step of __div64_32: take out what the high word alone contributes. */
  method Reduce(n: int, base: int) returns (rem: int, res: int)
    requires 0 <= n < TWO64 && 0 < base < TWO32
    ensures n == res * base + rem && 0 <= rem <= n && 0 <= res
  {
    rem, res := n, 0;
    var high := n / 0x1_0000_0000;
    if high >= base {
      ghost var h, r := QuotientTimes(high, base);
      high := high / base;
      ShiftOut(h, base);
      var product := (high * base) % 0x1_0000_0000;
      assert product == h * base;
      res := Wrap64(high * 0x1_0000_0000);
      rem := Wrap64(rem - Wrap64(product * 0x1_0000_0000));
    }
  }

  /** __div64_32 of the 32-bit build: quotient and remainder by shifting and subtracting. */
  method Div64By32(n: int, base: int) returns (q: int, r: int)
    requires 0 <= n < TWO64 && 0 < base < TWO32
    ensures Divides(n, base, q, r) && 0 <= q < TWO64
  {
    var rem, res := Reduce(n, base);
    var b, d, k := Double(rem, base);
    q, r := Halve(n, base, rem, res, b, d, k);
  }

  /** do_div of the 32-bit build, which divides directly when the high word is zero. */
  method DoDiv32(n: int, base: int) returns (q: int, r: int)
    requires 0 <= n < TWO64 && 0 < base < TWO32
    ensures q == n / base && r == n % base && 0 <= r < base
  {
    if n / 0x1_0000_0000 == 0 {
      q, r := n / base, n % base;
    } else {
      q, r := Div64By32(n, base);
      DivModIs(n, base, q, r);
    }
  }

  function Abs(x: int): int {
    if x < 0 then -x else x
  }

  /** The division of C, which truncates toward zero; the 64-bit build uses it directly. */
  function TruncDiv(n: int, d: int): int
    requires d != 0
  {
    if (n < 0) == (d < 0) then Abs(n) / Abs(d) else -(Abs(n) / Abs(d))
  }

  function TruncMod(n: int, d: int): int
    requires d != 0
  {
    if n < 0 then -(Abs(n) % Abs(d)) else Abs(n) % Abs(d)
  }

  lemma MulSigns(q: int, d: int)
    ensures (-q) * d == -(q * d) && q * (-d) == -(q * d)
  {
  }

  /** What C says of a quotient and a remainder: they add up, and the remainder is smaller than the divisor
      and zero or of the sign of the dividend. */
  predicate Truncates(n: int, d: int, q: int, r: int) {
    n == q * d + r && Abs(r) < Abs(d) && (r < 0 ==> n < 0) && (r > 0 ==> n > 0)
  }

  /** There is exactly one such pair. */
  lemma TruncAddsUp(n: int, d: int)
    requires d != 0
    ensures Truncates(n, d, TruncDiv(n, d), TruncMod(n, d))
  {
    var q, r := Abs(n) / Abs(d), Abs(n) % Abs(d);
    assert Abs(n) == q * Abs(d) + r;
    MulSigns(q, d);
    if n == 0 {
      DivModIs(0, Abs(d), 0, 0);
    }
  }

  lemma TruncIs(n: int, d: int, q: int, r: int)
    requires Truncates(n, d, q, r)
    ensures q == TruncDiv(n, d) && r == TruncMod(n, d)
  {
    var m := if (n < 0) == (d < 0) then q else -q;
    MulSigns(q, d);
    DivModIs(Abs(n), Abs(d), m, Abs(r));
  }

  lemma QuotientFits(n: int, d: int)
    requires 0 <= n < TWO63 && d > 0
    ensures 0 <= n / d < TWO63
  {
    ResFits(n, n / d, d);
  }

  method Magnitudes(n: int, d: int) returns (q: int, r: int)
    requires 0 <= n < TWO63 && 0 < d < TWO31
    ensures q == n / d && r == n % d && 0 <= q < TWO63
  {
    QuotientFits(n, d);
    q, r := DoDiv32(n, d);
  }

  function Negate(q: int): (r: int)
    requires 0 <= q < TWO63
    ensures 0 <= r < TWO64 && AsSigned(r) == -q
  {
    Wrap64(-q)
  }

  /** An unsigned 64-bit word returned as a signed one. */
  function AsSigned(q: int): int {
    if q < TWO63 then q else q - TWO64
  }

  /** div_s64_rem of the 32-bit build agrees with C's division, as the 64-bit build has it. */
  method DivS64Rem32(dividend: int, divisor: int) returns (quotient: int, remainder: int)
    requires -TWO63 < dividend < TWO63
    requires -TWO31 < divisor < TWO31 && divisor != 0
    ensures quotient == TruncDiv(dividend, divisor) && remainder == TruncMod(dividend, divisor)
    ensures Truncates(dividend, divisor, quotient, remainder)
  {
    var q, r;
    TruncAddsUp(dividend, divisor);
    if dividend < 0 {
      q, r := Magnitudes(-dividend, Abs(divisor));
      remainder := -r;
      quotient := AsSigned(if divisor > 0 then Negate(q) else q);
    } else {
      q, remainder := Magnitudes(dividend, Abs(divisor));
      quotient := AsSigned(if divisor < 0 then Negate(q) else q);
    }
  }

  datatype Timespec = Timespec(sec: int, nsec: int)

  /** The seconds and nanoseconds of a number of nanoseconds, seconds rounded down. */
  function SplitNs(ns: int): (ts: Timespec)
    ensures ts.sec * 1_000_000_000 + ts.nsec == ns && 0 <= ts.nsec < 1_000_000_000
  {
    Timespec(ns / 1_000_000_000, ns % 1_000_000_000)
  }

  /** ns_to_timespec once its division is done; `half` is half the range of time_t. */
  function FromQuotient(q: int, r: int, half: int): Timespec
    requires half > 0
  {
    var sec := Signed(q, half);
    if r < 0 then Timespec(Signed(sec - 1, half), r + NSEC_PER_SEC) else Timespec(sec, r)
  }

  lemma SignedDec(q: int, half: int)
    requires half > 0
    ensures Signed(Signed(q, half) - 1, half) == Signed(q - 1, half)
  {
    var w := 2 * half;
    assert q == (q / w) * w + q % w;
    var j := if q % w < half then -(q / w) else -(q / w) - 1;
    assert Signed(q, half) == q + j * w;
    SignedShift(Signed(q, half) - 1, q - 1, j, half);
  }

  lemma FromQuotientIsSplit(ns: int, half: int)
    requires half > 0
    ensures var q, r := TruncDiv(ns, NSEC_PER_SEC), TruncMod(ns, NSEC_PER_SEC);
            FromQuotient(q, r, half) == Timespec(Signed(SplitNs(ns).sec, half), SplitNs(ns).nsec)
  {
    var q, r := TruncDiv(ns, NSEC_PER_SEC), TruncMod(ns, NSEC_PER_SEC);
    TruncAddsUp(ns, NSEC_PER_SEC);
    if r < 0 {
      DivModIs(ns, 1_000_000_000, q - 1, r + 1_000_000_000);
      SignedDec(q, half);
    } else {
      DivModIs(ns, 1_000_000_000, q, r);
    }
  }

  /** ns_to_timespec as the 32-bit build computes it. */
  method NsToTimespec32(ns: int, half: int) returns (ts: Timespec)
    requires -TWO63 < ns < TWO63 && half > 0
    ensures ts == Timespec(Signed(SplitNs(ns).sec, half), SplitNs(ns).nsec)
  {
    if ns == 0 {
      SignedInRange(0, half);
      return Timespec(0, 0);
    }
    var q, r := DivS64Rem32(ns, NSEC_PER_SEC);
    FromQuotientIsSplit(ns, half);
    ts := FromQuotient(q, r, half);
  }

  /** ns_to_timespec as the 64-bit build computes it. */
  method NsToTimespec64(ns: int, half: int) returns (ts: Timespec)
    requires -TWO63 <= ns < TWO63 && half > 0
    ensures ts == Timespec(Signed(SplitNs(ns).sec, half), SplitNs(ns).nsec)
  {
    if ns == 0 {
      SignedInRange(0, half);
      return Timespec(0, 0);
    }
    FromQuotientIsSplit(ns, half);
    ts := FromQuotient(TruncDiv(ns, NSEC_PER_SEC), TruncMod(ns, NSEC_PER_SEC), half);
  }

  /** A conversion gives the input back exactly when its seconds fit time_t. */
  lemma TimespecAddsUp(ns: int, half: int)
    requires half > 0
    ensures Signed(SplitNs(ns).sec, half) * NSEC_PER_SEC + SplitNs(ns).nsec == ns <==>
            -half * NSEC_PER_SEC <= ns < half * NSEC_PER_SEC
  {
    var sec := SplitNs(ns).sec;
    SignedInRange(sec, half);
    assert -half <= sec < half <==> -half * 1_000_000_000 <= ns < half * 1_000_000_000;
  }

  /** With a 64-bit time_t every input fits; with a 32-bit one this one does not. */
  lemma TimespecWidths(ns: int)
    requires -TWO63 <= ns < TWO63
    ensures Signed(SplitNs(ns).sec, TWO63) * NSEC_PER_SEC + SplitNs(ns).nsec == ns
    ensures Signed(SplitNs(2_147_483_648_000_000_000).sec, TWO31) == -2_147_483_648
  {
    TimespecAddsUp(ns, TWO63);
  }

  datatype Timeval = Timeval(sec: int, usec: int)

  /** ns_to_timeval: the seconds of ns_to_timespec, and the nanoseconds rounded down to microseconds. */
  method NsToTimeval(ns: int, half: int) returns (tv: Timeval)
    requires -TWO63 < ns < TWO63 && half > 0
    ensures tv == Timeval(Signed(SplitNs(ns).sec, half), SplitNs(ns).nsec / 1000) && 0 <= tv.usec < 1_000_000
    ensures tv.sec * 1_000_000 + tv.usec == ns / 1000 <==> -half * NSEC_PER_SEC <= ns < half * NSEC_PER_SEC
  {
    var ts := NsToTimespec32(ns, half);
    TimespecAddsUp(ns, half);
    Microseconds(SplitNs(ns).sec, SplitNs(ns).nsec);
    tv := Timeval(ts.sec, ts.nsec / 1000);
  }

  lemma Microseconds(sec: int, nsec: int)
    requires 0 <= nsec < 1_000_000_000
    ensures (sec * 1_000_000_000 + nsec) / 1000 == sec * 1_000_000 + nsec / 1000
  {
  }
}
