/** The Internet checksum: the 32-bit partial sums of `include/serval/checksum.h`, the
    summing loop of `src/stack/userlevel/checksum.c` on a little-endian host, and the
    running sum that skb_add_data of `include/serval/skbuff.h` keeps.

    A partial sum stands for a number modulo 65535 and, apart from that, for whether
    that number is zero; `Stands` says so, and csum_fold depends on nothing else. */
module Checksum {
  import opened Wrappers

  type U16 = x: int | 0 <= x < 0x1_0000
  type U32 = x: int | 0 <= x < 0x1_0000_0000

  predicate Apart(a: int, b: int, k: int) {
    a == b + 65535 * k
  }

  /** Equal modulo 65535. */
  ghost predicate Congruent(a: int, b: int) {
    a == b || exists k :: Apart(a, b, k)
  }

  lemma CongruentOver(a: int, b: int) returns (k: int)
    requires Congruent(a, b)
    ensures a == b + 65535 * k
  {
    if a == b {
      k := 0;
    } else {
      k :| Apart(a, b, k);
    }
  }

  lemma CongruentBy(a: int, b: int, k: int)
    requires a == b + 65535 * k
    ensures Congruent(a, b)
  {
    assert Apart(a, b, k);
  }

  lemma CongruentAdd(a: int, b: int, c: int, d: int)
    requires Congruent(a, b) && Congruent(c, d)
    ensures Congruent(a + c, b + d)
  {
    var j := CongruentOver(a, b);
    var k := CongruentOver(c, d);
    CongruentBy(a + c, b + d, j + k);
  }

  lemma CongruentTimes(a: int, b: int)
    requires Congruent(a, b)
    ensures Congruent(256 * a, 256 * b)
  {
    var k := CongruentOver(a, b);
    CongruentBy(256 * a, 256 * b, 256 * k);
  }

  lemma CongruentSym(a: int, b: int)
    requires Congruent(a, b)
    ensures Congruent(b, a)
  {
    var k := CongruentOver(a, b);
    CongruentBy(b, a, -k);
  }

  lemma CongruentTrans(a: int, b: int, c: int)
    requires Congruent(a, b) && Congruent(b, c)
    ensures Congruent(a, c)
  {
    var j := CongruentOver(a, b);
    var k := CongruentOver(b, c);
    CongruentBy(a, c, j + k);
  }

  // ---------- Sections 1 and 2 of RFC 1071 ----------

  /** The sum of the 16-bit words of the data, low byte first, an odd last byte padded with 0. */
  ghost function Words(data: seq<Byte>): (r: int)
    ensures r >= 0
  {
    if data == [] then 0
    else if |data| == 1 then data[0]
    else data[0] + 256 * data[1] + Words(data[2..])
  }

  /** The same with the two bytes of every word exchanged. */
  ghost function Swapped(data: seq<Byte>): (r: int)
    ensures r >= 0
  {
    if data == [] then 0 else 256 * data[0] + Words(data[1..])
  }

  /** The checksum: the complement of the sum in one's complement arithmetic. */
  ghost function Checksum(data: seq<Byte>): (r: int) {
    0xffff - OnesSum(Words(data))
  }

  /** A non-negative number in one's complement 16-bit arithmetic; only 0 itself is 0. */
  ghost function OnesSum(n: int): (r: int)
    requires n >= 0
    ensures 0 <= r <= 0xffff && Congruent(r, n) && (r == 0 <==> n == 0)
  {
    if n == 0 then 0 else
      CongruentBy((n - 1) % 65535 + 1, n, -((n - 1) / 65535));
      (n - 1) % 65535 + 1
  }

  lemma OnesSumUnique(n: int, r: int)
    requires n >= 0 && 0 <= r <= 0xffff && Congruent(r, n) && (r == 0 <==> n == 0)
    ensures r == OnesSum(n)
  {
    var j := CongruentOver(r, n);
    var k := CongruentOver(OnesSum(n), n);
    assert r - OnesSum(n) == 65535 * (j - k);
  }

  lemma WordsTail(data: seq<Byte>)
    requires |data| >= 2
    ensures Words(data[1..]) == data[1] + Swapped(data[2..])
  {
    var tail := data[1..];
    assert tail[0] == data[1];
    if |data| > 2 {
      assert tail[2..] == data[2..][1..] && tail[1] == data[2..][0];
    }
  }

  lemma {:induction false} SwapIsTimes256(data: seq<Byte>)
    ensures Congruent(Swapped(data), 256 * Words(data))
    ensures Swapped(data) == 0 <==> Words(data) == 0
  {
    if |data| >= 2 {
      SwapIsTimes256(data[2..]);
      WordsTail(data);
      SwapStep(data[0], data[1], Swapped(data[2..]), Words(data[2..]));
    } else {
      assert |data| == 1 ==> Words(data[1..]) == 0;
    }
  }

  lemma SwapStep(b0: Byte, b1: Byte, x: int, w: int)
    requires Congruent(x, 256 * w)
    ensures Congruent(256 * b0 + (b1 + x), 256 * (b0 + 256 * b1 + w))
  {
    var k := CongruentOver(x, 256 * w);
    CongruentBy(256 * b0 + (b1 + x), 256 * (b0 + 256 * b1 + w), k - b1);
  }

  lemma {:induction false} WordsConcat(a: seq<Byte>, b: seq<Byte>)
    ensures Words(a + b) == Words(a) + if |a| % 2 == 0 then Words(b) else Swapped(b)
  {
    if a == [] {
      assert a + b == b;
    } else if |a| == 1 {
      if b != [] {
        assert (a + b)[2..] == b[1..];
      }
    } else {
      assert (a + b)[2..] == a[2..] + b;
      WordsConcat(a[2..], b);
    }
  }

  // ---------- Partial sums ----------

  /** The 32-bit partial sum `s` stands for the number `n`. */
  ghost predicate Stands(s: int, n: int) {
    Congruent(s, n) && (s == 0 <==> n == 0)
  }

  function FoldOnce(s: int): (r: int)
    requires 0 <= s < 0x1_0000_0000
    ensures 0 <= r <= 0x1fffe && Congruent(r, s) && (r == 0 <==> s == 0)
    ensures s <= 0x1fffe ==> r <= 0xffff
  {
    CongruentBy(s % 0x1_0000 + s / 0x1_0000, s, -(s / 0x1_0000));
    s % 0x1_0000 + s / 0x1_0000
  }

  /** csum_fold */
  function Fold(s: U32): U16 {
    0xffff - FoldOnce(FoldOnce(s))
  }

  /** Two folds are enough, and the result is the complement of the one's complement sum. */
  lemma FoldIsComplement(s: U32, n: int)
    requires n >= 0 && Stands(s, n)
    ensures Fold(s) == 0xffff - OnesSum(n)
  {
    CongruentTrans(FoldOnce(s), s, n);
    CongruentTrans(FoldOnce(FoldOnce(s)), FoldOnce(s), n);
    OnesSumUnique(n, FoldOnce(FoldOnce(s)));
  }

  /** Unsigned 32-bit arithmetic wraps. */
  function Wrap32(x: int): (r: U32)
    requires x >= 0
    ensures x < 0x1_0000_0000 ==> r == x
  {
    x % 0x1_0000_0000
  }

  /** csum_add: 32-bit addition with the carry added back. */
  function Add(a: U32, b: U32): (r: U32) {
    var res := Wrap32(a + b);
    if res < b then Wrap32(res + 1) else res
  }

  lemma AddStands(a: U32, b: U32, m: int, n: int)
    requires m >= 0 && n >= 0 && Stands(a, m) && Stands(b, n)
    ensures Stands(Add(a, b), m + n)
  {
    AddIs(a, b);
    CongruentAdd(a, m, b, n);
    CongruentTrans(Add(a, b), a + b, m + n);
  }

  lemma AddIs(a: U32, b: U32)
    ensures Add(a, b) == if a + b < 0x1_0000_0000 then a + b else a + b - 0xffff_ffff
    ensures Congruent(Add(a, b), a + b) && (Add(a, b) == 0 <==> a == 0 && b == 0)
  {
    if a + b >= 0x1_0000_0000 {
      CongruentBy(a + b - 0xffff_ffff, a + b, -65537);
    }
  }

  function Not(a: U32): U32 {
    0xffff_ffff - a
  }

  /** csum_sub */
  function Sub(a: U32, b: U32): U32 {
    Add(a, Not(b))
  }

  lemma FourBytes(s: U32)
    ensures s == s % 256 + 256 * ((s / 256) % 256) + 0x1_0000 * ((s / 0x1_0000) % 256) + 0x100_0000 * (s / 0x100_0000)
    ensures 0 <= s / 0x100_0000 < 256
  {
    var t := s / 256;
    assert s / 0x1_0000 == t / 256;
    var u := t / 256;
    assert s / 0x100_0000 == u / 256;
  }

  lemma SwapFour(b0: Byte, b1: Byte, b2: Byte, b3: Byte)
    ensures Congruent((b0 + b2 * 0x1_0000) * 256 + (b1 + b3 * 0x1_0000),
                      256 * (b0 + 256 * b1 + 0x1_0000 * b2 + 0x100_0000 * b3))
  {
    CongruentBy((b0 + b2 * 0x1_0000) * 256 + (b1 + b3 * 0x1_0000),
                256 * (b0 + 256 * b1 + 0x1_0000 * b2 + 0x100_0000 * b3), -(b1 + 0x1_0000 * b3));
  }

  /** ((s & 0xFF00FF) << 8) + ((s >> 8) & 0xFF00FF): exchange the bytes of both halves. */
  function SwapBytes(s: U32): (r: U32)
    ensures Congruent(r, 256 * s) && (r == 0 <==> s == 0)
  {
    var b0, b1, b2, b3 := s % 256, (s / 256) % 256, (s / 0x1_0000) % 256, s / 0x100_0000;
    FourBytes(s);
    SwapFour(b0, b1, b2, b3);
    (b0 + b2 * 0x1_0000) * 256 + (b1 + b3 * 0x1_0000)
  }

  function Placed(s: U32, offset: nat): U32 {
    if offset % 2 == 1 then SwapBytes(s) else s
  }

  /** csum_block_add: append a block's sum at an offset that may be odd. */
  function BlockAdd(a: U32, b: U32, offset: nat): U32 {
    Add(a, Placed(b, offset))
  }

  /** csum_block_sub */
  function BlockSub(a: U32, b: U32, offset: nat): U32 {
    Sub(a, Placed(b, offset))
  }

  /** Exchanging the bytes of a partial sum gives one of the exchanged data. */
  lemma SwapStands(b: U32, y: seq<Byte>)
    requires Stands(b, Words(y))
    ensures Stands(SwapBytes(b), Swapped(y))
  {
    SwapIsTimes256(y);
    CongruentTimes(b, Words(y));
    CongruentTrans(SwapBytes(b), 256 * b, 256 * Words(y));
    CongruentSym(Swapped(y), 256 * Words(y));
    CongruentTrans(SwapBytes(b), 256 * Words(y), Swapped(y));
  }

  /** Appending a block of data, at an even or an odd offset, gives the sum of the whole. */
  lemma BlockAddStands(a: U32, b: U32, x: seq<Byte>, y: seq<Byte>)
    requires Stands(a, Words(x)) && Stands(b, Words(y))
    ensures Stands(BlockAdd(a, b, |x|), Words(x + y))
  {
    WordsConcat(x, y);
    if |x| % 2 == 1 {
      SwapStands(b, y);
      AddStands(a, SwapBytes(b), Words(x), Swapped(y));
    } else {
      AddStands(a, b, Words(x), Words(y));
    }
  }

  lemma SubUndoes(a: U32, p: U32)
    ensures Congruent(Sub(Add(a, p), p), a) && Sub(Add(a, p), p) != 0
  {
    AddIs(a, p);
    AddIs(Add(a, p), Not(p));
    var c := Sub(Add(a, p), p);
    CongruentBy(a + p + Not(p), a, 65537);
    CongruentAdd(Add(a, p), a + p, Not(p), Not(p));
    CongruentTrans(c, Add(a, p) + Not(p), a + p + Not(p));
    CongruentTrans(c, a + p + Not(p), a);
  }

  lemma FoldTellsZero(c: U32, a: U32)
    requires Congruent(c, a) && c != 0
    ensures Fold(c) == Fold(a) <==> a != 0
  {
    if a != 0 {
      FoldIsComplement(c, a);
      FoldIsComplement(a, a);
    } else {
      FoldIsComplement(c, c);
      FoldIsComplement(0, 0);
    }
  }

  /** Taking a block out again leaves a congruent sum, but never the all-zero one: the folded
      checksum comes back exactly when the sum was not zero. */
  lemma BlockSubUndoes(a: U32, b: U32, offset: nat)
    ensures var c := BlockSub(BlockAdd(a, b, offset), b, offset);
            Congruent(c, a) && (Fold(c) == Fold(a) <==> a != 0)
  {
    SubUndoes(a, Placed(b, offset));
    FoldTellsZero(BlockSub(BlockAdd(a, b, offset), b, offset), a);
  }

  /** Such a sum is zero: whatever is added to it and taken out again turns the checksum 0xffff into 0. */
  lemma SubFails(p: U32)
    ensures Fold(0) == 0xffff && Fold(Sub(Add(0, p), p)) == 0
  {
    FoldOfZeroClass(0);
    SubUndoes(0, p);
    FoldOfZeroClass(Sub(Add(0, p), p));
  }

  /** A sum that is a multiple of 0xffff folds to 0, or to 0xffff if it is zero itself. */
  lemma FoldOfZeroClass(c: U32)
    requires Congruent(c, 0)
    ensures Fold(c) == if c == 0 then 0xffff else 0
  {
    if c == 0 {
      FoldIsComplement(c, 0);
    } else {
      CongruentBy(0, 65535, -1);
      CongruentTrans(c, 0, 65535);
      FoldIsComplement(c, 65535);
      OnesSumUnique(65535, 65535);
    }
  }

  /** A receiver that adds the transmitted checksum to the sum always folds to zero. */
  lemma ReceiverSeesZero(s: U32)
    ensures Fold(Add(s, Fold(s))) == 0
  {
    var f := Fold(s);
    FoldIsComplement(s, s);
    CongruentSym(OnesSum(s), s);
    CongruentAdd(s, OnesSum(s), f, f);
    AddIs(s, f);
    CongruentTrans(Add(s, f), s + f, 65535);
    FoldIsComplement(Add(s, f), 65535);
    OnesSumUnique(65535, 65535);
  }

  // ---------- Summing a block of memory ----------

  /** The 16-bit and 32-bit little-endian loads. */
  function Load16(data: seq<Byte>, pos: nat): U16
    requires pos + 2 <= |data|
  {
    (data[pos] as int) + 256 * (data[pos + 1] as int)
  }

  function Load32(data: seq<Byte>, pos: nat): U32
    requires pos + 4 <= |data|
  {
    Load16(data, pos) + 0x1_0000 * Load16(data, pos + 2)
  }

  lemma WordsNext16(data: seq<Byte>, pos: nat)
    requires pos % 2 == 0 && pos + 2 <= |data|
    ensures Words(data[..pos + 2]) == Words(data[..pos]) + Load16(data, pos)
  {
    WordsConcat(data[..pos], data[pos..pos + 2]);
    assert data[..pos] + data[pos..pos + 2] == data[..pos + 2];
    assert data[pos..pos + 2][2..] == [];
  }

  lemma WordsNext32(data: seq<Byte>, pos: nat)
    requires pos % 2 == 0 && pos + 4 <= |data|
    ensures Words(data[..pos + 4]) == Words(data[..pos]) + Load16(data, pos) + Load16(data, pos + 2)
    ensures Stands(Load32(data, pos), Load16(data, pos) + Load16(data, pos + 2))
  {
    WordsNext16(data, pos);
    WordsNext16(data, pos + 2);
    CongruentBy(Load32(data, pos), Load16(data, pos) + Load16(data, pos + 2), Load16(data, pos + 2));
  }

  lemma WordsSnoc(front: seq<Byte>, x: Byte)
    requires |front| % 2 == 0
    ensures Words(front + [x]) == Words(front) + x
  {
    WordsConcat(front, [x]);
  }

  lemma WordsLast(data: seq<Byte>)
    requires |data| % 2 == 1
    ensures Words(data) == Words(data[..|data| - 1]) + data[|data| - 1]
  {
    var k := |data| - 1;
    assert data[..k] + [data[k]] == data;
    WordsSnoc(data[..k], data[k]);
  }

  /** One addition of the 32-bit loop of do_csum; the overflow is kept for the next one. */
  method AddCarry(result: int, carry: int, w: U32) returns (result': int, carry': int)
    requires 0 <= carry <= 1 && 0 <= result && result + carry < 0x1_0000_0000
    ensures 0 <= carry' <= 1 && 0 <= result' && result' + carry' == Add(result + carry, w)
  {
    AddIs(result + carry, w);
    result' := Wrap32(result + carry);
    result' := Wrap32(result' + w);
    carry' := if w > result' then 1 else 0;
  }

  /** The 32-bit loop of do_csum. */
  method SumLongs(body: seq<Byte>, start: nat, count0: nat, sum: int, ghost lead: nat) returns (result: int, pos: nat)
    requires start % 2 == 0 && count0 > 0 && start + 4 * count0 <= |body|
    requires 0 <= sum <= 0x1_ffff && Stands(sum, lead + Words(body[..start]))
    ensures pos == start + 4 * count0 && pos % 2 == 0
    ensures 0 <= result <= 0x1_fffe && Stands(result, lead + Words(body[..pos]))
  {
    var carry, count := 0, count0;
    result, pos := sum, start;
    while count > 0
      invariant pos + 4 * count == start + 4 * count0 && pos % 2 == 0
      invariant 0 <= carry <= 1 && 0 <= result && result + carry < 0x1_0000_0000
      invariant Stands(result + carry, lead + Words(body[..pos]))
    {
      result, carry := AddLong(body, pos, result, carry, lead);
      count := count - 1;
      pos := pos + 4;
    }
    result := FoldCarry(result, carry, lead + Words(body[..pos]));
  }

  /** One round of that loop. */
  method AddLong(body: seq<Byte>, pos: nat, result: int, carry: int, ghost lead: nat)
    returns (result': int, carry': int)
    requires pos % 2 == 0 && pos + 4 <= |body|
    requires 0 <= carry <= 1 && 0 <= result && result + carry < 0x1_0000_0000
    requires Stands(result + carry, lead + Words(body[..pos]))
    ensures 0 <= carry' <= 1 && 0 <= result' && result' + carry' < 0x1_0000_0000
    ensures Stands(result' + carry', lead + Words(body[..pos + 4]))
  {
    NextLong(body, pos, result + carry, lead);
    result', carry' := AddCarry(result, carry, Load32(body, pos));
  }

  /** What follows that loop. */
  method FoldCarry(result: int, carry: int, ghost n: int) returns (r: int)
    requires 0 <= carry <= 1 && 0 <= result && result + carry < 0x1_0000_0000 && Stands(result + carry, n)
    ensures 0 <= r <= 0x1_fffe && Stands(r, n)
  {
    r := Wrap32(result + carry);
    FoldStands(r, n);
    r := FoldOnce(r);
  }

  lemma NextLong(body: seq<Byte>, pos: nat, s: U32, lead: nat)
    requires pos % 2 == 0 && pos + 4 <= |body| && Stands(s, lead + Words(body[..pos]))
    ensures Stands(Add(s, Load32(body, pos)), lead + Words(body[..pos + 4]))
  {
    WordsNext32(body, pos);
    AddStands(s, Load32(body, pos), lead + Words(body[..pos]), Load16(body, pos) + Load16(body, pos + 2));
  }

  lemma NextShort(body: seq<Byte>, pos: nat, s: int, lead: nat)
    requires pos % 2 == 0 && pos + 2 <= |body| && s >= 0 && Stands(s, lead + Words(body[..pos]))
    ensures Stands(s + Load16(body, pos), lead + Words(body[..pos + 2]))
  {
    WordsNext16(body, pos);
    PlusStands(s, lead + Words(body[..pos]), Load16(body, pos));
  }

  lemma NextByte(body: seq<Byte>, s: int, lead: nat)
    requires |body| % 2 == 1 && s >= 0 && Stands(s, lead + Words(body[..|body| - 1]))
    ensures Stands(s + body[|body| - 1], lead + Words(body))
  {
    WordsLast(body);
    PlusStands(s, lead + Words(body[..|body| - 1]), body[|body| - 1]);
  }

  lemma FoldStands(s: U32, n: int)
    requires Stands(s, n)
    ensures Stands(FoldOnce(s), n)
  {
    CongruentTrans(FoldOnce(s), s, n);
  }

  lemma PlusStands(s: int, n: int, x: int)
    requires s >= 0 && n >= 0 && x >= 0 && Stands(s, n)
    ensures Stands(s + x, n + x)
  {
    CongruentAdd(s, n, x, x);
  }

  /** do_csum from an even address on; `second` says that the address is not a multiple of 4. */
  method SumBody(body: seq<Byte>, second: bool, lead: nat) returns (result: int)
    requires lead <= 0xff00
    ensures 0 <= result < 0x1_0000_0000 && Stands(result, lead + Words(body))
  {
    result := lead;
    var len, pos, count := |body|, 0, |body| / 2;
    if count != 0 {
      result, len, pos, count := SumFirst(body, second, lead);
      result, pos := SumPairs(body, len, pos, count, result, lead);
    }
    if len % 2 == 1 {
      NextByte(body, result, lead);
      result := result + body[pos];
    } else {
      assert body[..pos] == body;
    }
  }

  method SumPairs(body: seq<Byte>, len: nat, start: nat, count0: nat, sum: int, ghost lead: nat)
    returns (result: int, pos: nat)
    requires start % 2 == 0 && start + len == |body| && count0 == len / 2
    requires 0 <= sum <= 0x1_ffff && Stands(sum, lead + Words(body[..start]))
    ensures pos == |body| - len % 2 && 0 <= result <= 0x4_0000 && Stands(result, lead + Words(body[..pos]))
  {
    result, pos := sum, start;
    var count := count0 / 2;
    if count != 0 {
      result, pos := SumLongs(body, pos, count, result, lead);
    }
    if len % 4 >= 2 {
      NextShort(body, pos, result, lead);
      result := result + Load16(body, pos);
      pos := pos + 2;
    }
  }

  method SumFirst(body: seq<Byte>, second: bool, lead: nat) returns (result: int, len: nat, pos: nat, count: nat)
    requires lead <= 0xff00 && |body| >= 2
    ensures pos % 2 == 0 && pos + len == |body| && count == len / 2
    ensures 0 <= result <= 0x1_ffff && Stands(result, lead + Words(body[..pos]))
  {
    result, len, pos, count := lead, |body|, 0, |body| / 2;
    if second {
      NextShort(body, pos, result, lead);
      result := result + Load16(body, pos);
      len, pos, count := len - 2, pos + 2, count - 1;
    }
  }

  /** do_csum: whatever the alignment of the block, the sum of its words. */
  method SumBlock(data: seq<Byte>, address: nat) returns (result: int)
    ensures 0 <= result <= 0xffff && Stands(result, Words(data))
  {
    if |data| == 0 {
      return 0;
    }
    var odd := address % 2 == 1;
    if odd {
      result := SumBody(data[1..], (address + 1) % 4 >= 2, 256 * (data[0] as int));
    } else {
      result := SumBody(data, address % 4 >= 2, 0);
    }
    SwappedHead(data);
    result := FoldTwice(result, if odd then Swapped(data) else Words(data));
    if odd {
      SwapBack(result, data);
      result := Exchanged(result);
    }
  }

  /** from32to16 */
  method FoldTwice(s: U32, ghost n: int) returns (r: int)
    requires Stands(s, n)
    ensures 0 <= r <= 0xffff && Stands(r, n)
  {
    FoldStands(s, n);
    FoldStands(FoldOnce(s), n);
    r := FoldOnce(FoldOnce(s));
  }

  /** The two bytes of a 16-bit sum exchanged: the last step of do_csum for a block at an odd address. */
  function Exchanged(r: U16): (x: U16)
    ensures x == 0 <==> r == 0
  {
    r / 256 + 256 * (r % 256)
  }

  lemma SwappedHead(data: seq<Byte>)
    requires data != []
    ensures Swapped(data) == 256 * (data[0] as int) + Words(data[1..])
  {
    if |data| >= 2 {
      WordsTail(data);
    }
  }

  /** Exchanging the two bytes of a sum taken one byte off puts it right. */
  lemma SwapBack(r: U16, data: seq<Byte>)
    requires Stands(r, Swapped(data))
    ensures Stands(Exchanged(r), Words(data))
  {
    SwapIsTimes256(data);
    CongruentTrans(r, Swapped(data), 256 * Words(data));
    SwapTwice(r, Words(data));
  }

  lemma SwapTwice(r: U16, n: int)
    requires Congruent(r, 256 * n)
    ensures Congruent(Exchanged(r), n)
  {
    var k := CongruentOver(r, 256 * n);
    CongruentBy(Exchanged(r), n, n + 256 * k - r / 256);
  }

  /** csum_partial */
  method Partial(data: seq<Byte>, address: nat, sum: U32, ghost n: nat) returns (result: U32)
    requires Stands(sum, n)
    ensures Stands(result, Words(data) + n)
  {
    var r := SumBlock(data, address);
    AddStands(r, sum, Words(data), n);
    AddIs(r, sum);
    result := Wrap32(r + sum);
    if sum > result {
      result := Wrap32(result + 1);
    }
  }

  // ---------- The running sum of a packet ----------

  datatype Outcome = Ok | Fault

  class Packet {
    var data: seq<Byte>
    var csum: U32
    const summed: bool
    const address: nat

    /** The running sum stands for the data so far (ip_summed == CHECKSUM_NONE). */
    ghost predicate Valid()
      reads this
    {
      summed ==> Stands(csum, Words(data))
    }

    constructor (summed: bool, address: nat)
      ensures Valid() && data == [] && this.summed == summed
    {
      this.data, csum := [], 0;
      this.summed, this.address := summed, address;
    }

    /** skb_add_data; `fault` is the error of the copy, after which the packet is trimmed back. */
    method AddData(chunk: seq<Byte>, fault: bool) returns (r: Outcome)
      requires Valid()
      modifies this
      ensures Valid()
      ensures r == if summed && fault then Fault else Ok
      ensures data == old(data) + if r == Ok then chunk else []
    {
      var off := |data|;
      data := data + chunk;
      if summed {
        var part := Partial(chunk, address + off, 0, 0);
        if !fault {
          BlockAddStands(csum, part, old(data), chunk);
          csum := BlockAdd(csum, part, off);
          return Ok;
        }
      } else {
        return Ok;
      }
      data := data[..off];
      return Fault;
    }
  }

  function Flatten(chunks: seq<seq<Byte>>): seq<Byte> {
    if chunks == [] then [] else Flatten(chunks[..|chunks| - 1]) + chunks[|chunks| - 1]
  }

  /** Appending chunks of any lengths to a fresh packet leaves a sum whose fold is the RFC's
      checksum of the concatenation. */
  method SendChunks(chunks: seq<seq<Byte>>, address: nat) returns (check: U16)
    ensures check == Checksum(Flatten(chunks))
  {
    var p := new Packet(true, address);
    for i := 0 to |chunks|
      invariant p.Valid() && p.summed && p.data == Flatten(chunks[..i]) && fresh(p)
    {
      var _ := p.AddData(chunks[i], false);
      assert chunks[..i + 1][..i] == chunks[..i];
    }
    assert chunks[..|chunks|] == chunks;
    FoldIsComplement(p.csum, Words(p.data));
    check := Fold(p.csum);
  }
}
