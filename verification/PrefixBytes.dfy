/** How `src/stack/bst.c` packs a bit string into bytes, most significant bit first: the bits that
    its walk reads, and the masked copy that each node stores. */
module PrefixBytes {
  import opened PrefixMap

  /** 0x1 << (7 - j) */
  function BitMask(j: nat): bv8
    requires j < 8
  {
    match j
    case 0 => 0x80
    case 1 => 0x40
    case 2 => 0x20
    case 3 => 0x10
    case 4 => 0x08
    case 5 => 0x04
    case 6 => 0x02
    case 7 => 0x01
  }

  predicate BitOf(b: bv8, j: nat)
    requires j < 8
  {
    b & BitMask(j) != 0
  }

  /** PREFIX_SIZE */
  function Size(bits: nat): nat {
    bits / 8 + if bits % 8 != 0 then 1 else 0
  }

  /** CHECK_BIT */
  predicate CheckBit(prefix: seq<bv8>, i: nat)
    requires i < 8 * |prefix|
  {
    BitOf(prefix[i / 8], i % 8)
  }

  /** The bit string that the first `bits` bits of some bytes are. */
  function ToPath(prefix: seq<bv8>, bits: nat): (p: Path)
    requires bits <= 8 * |prefix|
    ensures |p| == bits && forall i :: 0 <= i < bits ==> p[i] == CheckBit(prefix, i)
  {
    seq(bits, i requires 0 <= i < bits => CheckBit(prefix, i))
  }

  /** Bits come most significant first: the mask of bit `j` is one, shifted as the source shifts it, and each
      bit counts for twice the next one. */
  lemma BitMaskIs(j: nat)
    requires j < 8
    ensures BitMask(j) == (1 as bv8) << (7 - j)
    ensures j > 0 ==> BitMask(j - 1) == BitMask(j) + BitMask(j) && BitMask(j - 1) > BitMask(j)
  {
  }

  /** The fewest bytes that hold so many bits. */
  lemma SizeIsLeast(bits: nat, n: nat)
    ensures 8 * n >= bits <==> n >= Size(bits)
  {
  }

  lemma MaskedBit(m: bv8, k: nat, j: nat)
    requires j < 8 && k < 8
    ensures BitOf(m | BitMask(k), j) <==> BitOf(m, j) || j == k
  {
  }

  lemma AndBit(a: bv8, m: bv8, j: nat)
    requires j < 8
    ensures BitOf(a & m, j) <==> BitOf(a, j) && BitOf(m, j)
  {
  }

  lemma SameByte(a: bv8, b: bv8)
    requires forall j :: 0 <= j < 8 ==> BitOf(a, j) == BitOf(b, j)
    ensures a == b
  {
    assert BitOf(a, 0) == BitOf(b, 0) && BitOf(a, 1) == BitOf(b, 1) && BitOf(a, 2) == BitOf(b, 2);
    assert BitOf(a, 3) == BitOf(b, 3) && BitOf(a, 4) == BitOf(b, 4) && BitOf(a, 5) == BitOf(b, 5);
    assert BitOf(a, 6) == BitOf(b, 6) && BitOf(a, 7) == BitOf(b, 7);
  }

  /** The mask that bst_create_node computes for the last byte: its first `k` bits. */
  method EndMask(k: nat) returns (mask: bv8)
    requires k < 8
    ensures forall j :: 0 <= j < 8 ==> (BitOf(mask, j) <==> j < k)
  {
    mask := 0;
    for i := 0 to k
      invariant forall j :: 0 <= j < 8 ==> (BitOf(mask, j) <==> j < i)
    {
      var wider := mask | BitMask(i);
      forall j | 0 <= j < 8 ensures BitOf(wider, j) <==> j < i + 1 {
        MaskedBit(mask, i, j);
      }
      mask := wider;
    }
  }

  /** The bytes `r` hold the first `bits` bits of the key, and zeros after them. */
  ghost predicate Stores(r: seq<bv8>, key: seq<bv8>, bits: nat)
    requires bits <= 8 * |key|
  {
    |r| == Size(bits) && forall i :: 0 <= i < 8 * |r| ==> (CheckBit(r, i) <==> i < bits && CheckBit(key, i))
  }

  /** The prefix that bst_create_node stores in a node of `bits` bits. */
  method StoredPrefix(key: seq<bv8>, bits: nat) returns (r: seq<bv8>)
    requires bits <= 8 * |key|
    ensures Stores(r, key, bits)
  {
    r := key[..Size(bits)];
    if bits % 8 != 0 {
      var mask := EndMask(bits % 8);
      var last := |r| - 1;
      var end := r[last] & mask;
      forall j | 0 <= j < 8 ensures BitOf(end, j) <==> BitOf(key[last], j) && j < bits % 8 {
        AndBit(r[last], mask, j);
      }
      r := r[last := end];
      forall i | 0 <= i < 8 * |r| ensures CheckBit(r, i) <==> i < bits && CheckBit(key, i) {
        assert i / 8 == last ==> (CheckBit(r, i) <==> BitOf(end, i % 8));
      }
    }
  }

  /** Stored prefixes of the same length are the same bytes exactly when they are the same bits. */
  lemma StoredIsCanonical(r: seq<bv8>, s: seq<bv8>, key: seq<bv8>, other: seq<bv8>, bits: nat)
    requires bits <= 8 * |key| && bits <= 8 * |other| && Stores(r, key, bits) && Stores(s, other, bits)
    ensures ToPath(r, bits) == ToPath(key, bits)
    ensures r == s <==> ToPath(key, bits) == ToPath(other, bits)
  {
    var p, q := ToPath(key, bits), ToPath(other, bits);
    forall i | 0 <= i < bits ensures CheckBit(r, i) == p[i] && CheckBit(s, i) == q[i] {
    }
    if p == q {
      forall k | 0 <= k < |r| ensures r[k] == s[k] {
        forall j | 0 <= j < 8 ensures BitOf(r[k], j) == BitOf(s[k], j) {
          var i := 8 * k + j;
          assert i / 8 == k && i % 8 == j;
          assert CheckBit(r, i) == (i < bits && p[i]) && CheckBit(s, i) == (i < bits && q[i]);
        }
        SameByte(r[k], s[k]);
      }
    }
  }
}
