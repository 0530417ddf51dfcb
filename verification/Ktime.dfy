/** Time values packed into one 64-bit word, seconds in the high half and nanoseconds
    in the low half: the 32-bit form of `include/serval/ktime.h`. A value is the
    signed 64-bit number `tv64` that the union holds. */
module Ktime {
  import opened Wrappers

  function Signed64(x: int): (r: int)
    ensures -0x8000_0000_0000_0000 <= r < 0x8000_0000_0000_0000
    ensures -0x8000_0000_0000_0000 <= x < 0x8000_0000_0000_0000 ==> r == x
    ensures (x - r) % 0x1_0000_0000_0000_0000 == 0
  {
    (x + 0x8000_0000_0000_0000) % 0x1_0000_0000_0000_0000 - 0x8000_0000_0000_0000
  }

  function Signed32(x: int): (r: int)
    ensures -0x8000_0000 <= r < 0x8000_0000
    ensures -0x8000_0000 <= x < 0x8000_0000 ==> r == x
  {
    (x + 0x8000_0000) % 0x1_0000_0000 - 0x8000_0000
  }

  type Word = t: int | -0x8000_0000_0000_0000 <= t < 0x8000_0000_0000_0000

  /** The two fields of the union, each a signed 32-bit number. */
  function Sec(t: Word): (s: int)
    ensures -0x8000_0000 <= s < 0x8000_0000
  {
    t / 0x1_0000_0000
  }

  function Nsec(t: Word): (n: int)
    ensures -0x8000_0000 <= n < 0x8000_0000
  {
    Signed32(t % 0x1_0000_0000)
  }

  /** The union with its two fields written; also ktime_set. */
  function Pack(sec: int, nsec: int): (t: Word)
    ensures -0x8000_0000 <= sec < 0x8000_0000 ==> Sec(t) == sec
    ensures -0x8000_0000 <= nsec < 0x8000_0000 ==> Nsec(t) == nsec
  {
    Signed32(sec) * 0x1_0000_0000 + nsec % 0x1_0000_0000
  }

  predicate Normal(t: Word) {
    0 <= Nsec(t) < NSEC_PER_SEC
  }

  /** ktime_to_ns */
  function ToNs(t: Word): (ns: int)
    ensures -0x8000_0000_0000_0000 <= ns < 0x8000_0000_0000_0000
  {
    Sec(t) * 1_000_000_000 + Nsec(t)
  }

  /** ktime_add: add the words whole, then move one second's worth of nanoseconds up. */
  function Add(a: Word, b: Word): Word {
    var res := Signed64(a + b);
    if Nsec(res) >= NSEC_PER_SEC then Signed64(res + (0x1_0000_0000 - 1_000_000_000)) else res
  }

  /** ktime_sub: subtract the words whole, then mend a borrow in the low field alone. */
  function Sub(a: Word, b: Word): Word {
    var res := Signed64(a - b);
    if Nsec(res) < 0 then Pack(Sec(res), Nsec(res) + NSEC_PER_SEC) else res
  }

  predicate SecondsFit(ns: int) {
    -0x8000_0000 <= ns / 1_000_000_000 < 0x8000_0000
  }

  lemma Fields(t: Word)
    requires Normal(t)
    ensures t == Sec(t) * 0x1_0000_0000 + Nsec(t)
  {
  }

  lemma Signed64Is(x: int, r: Word, k: int)
    requires x == r + k * 0x1_0000_0000_0000_0000
    ensures Signed64(x) == r
  {
  }

  lemma Signed32By(x: int) returns (k: int)
    ensures x == Signed32(x) + k * 0x1_0000_0000
  {
    k := (x + 0x8000_0000) / 0x1_0000_0000;
  }

  /** A word whose two halves are known. */
  lemma Halves(high: int, low: int)
    requires -0x8000_0000 <= high < 0x8000_0000 && 0 <= low < 0x1_0000_0000
    ensures Sec(high * 0x1_0000_0000 + low) == high && Nsec(high * 0x1_0000_0000 + low) == Signed32(low)
  {
  }

  lemma FieldsOf(sec: int, nsec: int)
    requires 0 <= nsec < 0x8000_0000
    ensures Sec(Signed64(sec * 0x1_0000_0000 + nsec)) == Signed32(sec)
    ensures Nsec(Signed64(sec * 0x1_0000_0000 + nsec)) == nsec
  {
    var k := Signed32By(sec);
    Signed64Is(sec * 0x1_0000_0000 + nsec, Signed32(sec) * 0x1_0000_0000 + nsec, k);
    Halves(Signed32(sec), nsec);
  }

  lemma Turn(x: int, c: int)
    ensures Signed64(Signed64(x) + c) == Signed64(x + c)
  {
  }

  /** Wrapped seconds give the number back exactly when they did not need to wrap. */
  lemma WrapIsExact(sec: int, nsec: int)
    requires 0 <= nsec < 1_000_000_000
    ensures Signed32(sec) * 1_000_000_000 + nsec == sec * 1_000_000_000 + nsec <==>
            SecondsFit(sec * 1_000_000_000 + nsec)
  {
    assert (sec * 1_000_000_000 + nsec) / 1_000_000_000 == sec;
  }

  lemma AddFields(a: Word, b: Word)
    requires Normal(a) && Normal(b)
    ensures var nsec := Nsec(a) + Nsec(b);
            var carry := if nsec >= NSEC_PER_SEC then 1 else 0;
            Sec(Add(a, b)) == Signed32(Sec(a) + Sec(b) + carry) && Nsec(Add(a, b)) == nsec - carry * NSEC_PER_SEC
  {
    Fields(a);
    Fields(b);
    var sec, nsec := Sec(a) + Sec(b), Nsec(a) + Nsec(b);
    AddWord(a, b, sec, nsec);
    if nsec >= NSEC_PER_SEC {
      FieldsOf(sec + 1, nsec - NSEC_PER_SEC);
    } else {
      FieldsOf(sec, nsec);
    }
  }

  /** The word that the addition and its fix-up give, before its halves are looked at. */
  lemma AddWord(a: Word, b: Word, sec: int, nsec: int)
    requires a + b == sec * 0x1_0000_0000 + nsec && 0 <= nsec < 2 * NSEC_PER_SEC
    ensures Add(a, b) == if nsec >= NSEC_PER_SEC then Signed64((sec + 1) * 0x1_0000_0000 + (nsec - NSEC_PER_SEC))
                         else Signed64(sec * 0x1_0000_0000 + nsec)
  {
    FieldsOf(sec, nsec);
    Turn(a + b, 0x1_0000_0000 - 1_000_000_000);
  }

  lemma NegativeFields(sec: int, nsec: int)
    requires -0x8000_0000 <= nsec < 0
    ensures Sec(Signed64(sec * 0x1_0000_0000 + nsec)) == Signed32(sec - 1)
    ensures Nsec(Signed64(sec * 0x1_0000_0000 + nsec)) == nsec
  {
    var k := Signed32By(sec - 1);
    var low := nsec + 0x1_0000_0000;
    Signed64Is(sec * 0x1_0000_0000 + nsec, Signed32(sec - 1) * 0x1_0000_0000 + low, k);
    Halves(Signed32(sec - 1), low);
  }

  lemma SubFields(a: Word, b: Word)
    requires Normal(a) && Normal(b)
    ensures var nsec := Nsec(a) - Nsec(b);
            var borrow := if nsec < 0 then 1 else 0;
            Sec(Sub(a, b)) == Signed32(Sec(a) - Sec(b) - borrow) && Nsec(Sub(a, b)) == nsec + borrow * NSEC_PER_SEC
  {
    Fields(a);
    Fields(b);
    var sec, nsec := Sec(a) - Sec(b), Nsec(a) - Nsec(b);
    assert a - b == sec * 0x1_0000_0000 + nsec;
    if nsec >= 0 {
      FieldsOf(sec, nsec);
    } else {
      NegativeFields(sec, nsec);
    }
  }

  /** Sums of normalised times are normalised, and exact exactly when their seconds fit. */
  lemma AddIsExact(a: Word, b: Word)
    requires Normal(a) && Normal(b)
    ensures Normal(Add(a, b))
    ensures ToNs(Add(a, b)) == ToNs(a) + ToNs(b) <==> SecondsFit(ToNs(a) + ToNs(b))
  {
    AddFields(a, b);
    var nsec := Nsec(a) + Nsec(b);
    var carry := if nsec >= NSEC_PER_SEC then 1 else 0;
    WrapIsExact(Sec(a) + Sec(b) + carry, nsec - carry * 1_000_000_000);
  }

  /** The same for differences, whose borrow the fix-up leaves in the high half. */
  lemma SubIsExact(a: Word, b: Word)
    requires Normal(a) && Normal(b)
    ensures Normal(Sub(a, b))
    ensures ToNs(Sub(a, b)) == ToNs(a) - ToNs(b) <==> SecondsFit(ToNs(a) - ToNs(b))
  {
    SubFields(a, b);
    var nsec := Nsec(a) - Nsec(b);
    var borrow := if nsec < 0 then 1 else 0;
    WrapIsExact(Sec(a) - Sec(b) - borrow, nsec + borrow * 1_000_000_000);
  }

  /** Outside that range the packed sum is wrong: two large times add up to a negative one. */
  lemma AddOverflows()
    ensures var t := Pack(0x7fff_ffff, 0);
            Normal(t) && ToNs(Add(t, t)) != ToNs(t) + ToNs(t)
  {
    AddIsExact(Pack(0x7fff_ffff, 0), Pack(0x7fff_ffff, 0));
  }

  /** And so is the packed difference: a negative time less a large one. */
  lemma SubOverflows()
    ensures var t, u := Pack(-0x8000_0000, 0), Pack(1, 0);
            Normal(t) && Normal(u) && ToNs(Sub(t, u)) != ToNs(t) - ToNs(u)
  {
    SubIsExact(Pack(-0x8000_0000, 0), Pack(1, 0));
  }

  /** Subtraction undoes addition, wrap-around included. */
  lemma SubUndoesAdd(a: Word, b: Word)
    requires Normal(a) && Normal(b)
    ensures Sub(Add(a, b), b) == a
  {
    AddFields(a, b);
    var c := Add(a, b);
    SubFields(c, b);
    var carry := if Nsec(a) + Nsec(b) >= NSEC_PER_SEC then 1 else 0;
    SignedUndo(Sec(a), Sec(b) + carry);
    Fields(a);
    Fields(Sub(c, b));
  }

  lemma SignedUndo(x: int, y: int)
    requires -0x8000_0000 <= x < 0x8000_0000
    ensures Signed32(Signed32(x + y) - y) == x
  {
  }

  /** On normalised times the words compare as the times do, so ktime_equal is equality. */
  lemma WordOrder(a: Word, b: Word)
    requires Normal(a) && Normal(b)
    ensures a < b <==> ToNs(a) < ToNs(b)
    ensures a == b <==> ToNs(a) == ToNs(b)
  {
    Fields(a);
    Fields(b);
  }
}
