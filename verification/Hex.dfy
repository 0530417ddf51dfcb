/** The hexadecimal printer and parser for service identifiers of `include/netinet/serval.h`. */
module Hex {
  import opened Wrappers

  const SIZE_MAX: nat := 0xffff_ffff_ffff_ffff

  /** c | 0x20: the bytes without that bit come in four runs. */
  function OrSpace(c: Byte): Byte {
    if c < 32 || 64 <= c < 96 || 128 <= c < 160 || 192 <= c < 224 then c + 32 else c
  }

  /** The bit for 32 is set, and all the others are as they were. */
  lemma OrSpaceIs(c: Byte)
    ensures OrSpace(c) / 64 == c / 64 && OrSpace(c) % 32 == c % 32 && OrSpace(c) / 32 % 2 == 1
  {
  }

  /** hextobyte; 0x30 is '0', 0x39 is '9', 0x61 is 'a' and 0x66 is 'f'. */
  function HexToByte(c: Byte): (v: int)
    ensures -1 <= v < 16
  {
    if 0x30 <= c <= 0x39 then c - 0x30
    else
      var d := OrSpace(c);
      if 0x61 <= d <= 0x66 then d - 0x61 + 10 else -1
  }

  function Digit(v: nat): (c: Byte)
    requires v < 16
    ensures HexToByte(c) == v
  {
    if v < 10 then v + 0x30 else v - 10 + 0x61
  }

  predicate IsHex(c: Byte) {
    HexToByte(c) != -1
  }

  /** A digit with its letter in lower case. */
  function Lower(c: Byte): Byte {
    if 0x41 <= c <= 0x46 then c + 32 else c
  }

  /** The digits are the printed ones and their upper-case forms, and no others. */
  lemma DigitsAre(c: Byte)
    ensures IsHex(c) <==> 0x30 <= c <= 0x39 || 0x61 <= c <= 0x66 || 0x41 <= c <= 0x46
    ensures IsHex(c) ==> Digit(HexToByte(c)) == Lower(c)
  {
  }

  // ---------- What a string of digits means ----------

  /** What hextobyte makes of a character: a digit's value, or -1. */
  type Value = v: int | -1 <= v < 16

  function Values(t: seq<Byte>): (vs: seq<Value>)
    ensures |vs| == |t| && forall i :: 0 <= i < |t| ==> vs[i] == HexToByte(t[i])
  {
    seq(|t|, i requires 0 <= i < |t| => HexToByte(t[i]))
  }

  predicate AllGood(vs: seq<Value>) {
    forall i :: 0 <= i < |vs| ==> vs[i] != -1
  }

  function Pair(high: int, low: int): Byte
    requires 0 <= high < 16 && 0 <= low < 16
  {
    high * 16 + low
  }

  /** Two digits a byte; a last digit alone is a high one. */
  function Decode(vs: seq<Value>): (r: seq<Byte>)
    requires AllGood(vs)
    ensures |r| == (|vs| + 1) / 2
  {
    if vs == [] then []
    else if |vs| == 1 then [Pair(vs[0], 0)]
    else [Pair(vs[0], vs[1])] + Decode(vs[2..])
  }

  function High(b: Byte): (c: Byte)
    ensures HexToByte(c) == b / 16
  {
    Digit(b / 16)
  }

  function Low(b: Byte): (c: Byte)
    ensures HexToByte(c) == b % 16
  {
    Digit(b % 16)
  }

  /** The two digits of a byte made from two digits. */
  lemma Halves(c: Byte, d: Byte)
    requires IsHex(c) && IsHex(d)
    ensures var b := Pair(HexToByte(c), HexToByte(d));
            High(b) == Lower(c) && Low(b) == Lower(d)
  {
    DigitsAre(c);
    DigitsAre(d);
  }

  function Encode(b: seq<Byte>): (r: seq<Byte>)
    ensures |r| == 2 * |b| && forall i :: 0 <= i < |r| ==> IsHex(r[i])
  {
    if b == [] then [] else [High(b[0]), Low(b[0])] + Encode(b[1..])
  }

  function Lowered(t: seq<Byte>): (r: seq<Byte>)
    ensures |r| == |t| && forall i :: 0 <= i < |t| ==> r[i] == Lower(t[i])
  {
    seq(|t|, i requires 0 <= i < |t| => Lower(t[i]))
  }

  lemma EncodeValues(b: seq<Byte>)
    requires b != []
    ensures Values(Encode(b)) == [b[0] / 16, b[0] % 16] + Values(Encode(b[1..]))
  {
  }

  lemma {:induction false} DecodeUndoesEncode(b: seq<Byte>)
    ensures AllGood(Values(Encode(b))) && Decode(Values(Encode(b))) == b
  {
    if b != [] {
      DecodeUndoesEncode(b[1..]);
      EncodeValues(b);
      assert Values(Encode(b))[2..] == Values(Encode(b[1..]));
    }
  }

  lemma EncodeFirst(b: Byte, rest: seq<Byte>)
    ensures Encode([b] + rest) == [High(b), Low(b)] + Encode(rest)
  {
    assert ([b] + rest)[1..] == rest;
  }

  lemma LoweredFirst(t: seq<Byte>)
    requires |t| >= 2
    ensures Lowered(t) == [Lower(t[0]), Lower(t[1])] + Lowered(t[2..])
  {
  }

  lemma {:induction false} EncodeUndoesDecode(t: seq<Byte>)
    requires AllGood(Values(t)) && |t| % 2 == 0
    ensures Encode(Decode(Values(t))) == Lowered(t)
  {
    if t != [] {
      var vs, rest := Values(t), t[2..];
      assert vs[2..] == Values(rest);
      assert AllGood(Values(rest));
      EncodeUndoesDecode(rest);
      Halves(t[0], t[1]);
      EncodeFirst(Pair(vs[0], vs[1]), Decode(Values(rest)));
      LoweredFirst(t);
    }
  }

  // ---------- The parser ----------

  /** What serval_hexton returns, the bytes it stores, and where in the string it stops. */
  datatype Parsed = Parsed(ok: bool, bytes: seq<Byte>, used: nat)

  function Then(b: Byte, k: nat, p: Parsed): Parsed {
    Parsed(p.ok, [b] + p.bytes, p.used + k)
  }

  /** serval_hexton on a text whose characters have these values, with `n` and `room` left in its two
      counters. The first counter wraps when the second digit of a pair is asked for and none is left. */
  function Parse(vs: seq<Value>, n: nat, room: nat): (p: Parsed)
    ensures p.used <= |vs| && |p.bytes| <= room
  {
    if vs == [] || room == 0 || n == 0 then Parsed(true, [], 0)
    else if vs[0] == -1 then Parsed(false, [], 1)
    else if |vs| == 1 || n == 1 then
      Then(Pair(vs[0], 0), 1, Parse(vs[1..], if |vs| > 1 then SIZE_MAX else n - 1, room - 1))
    else if vs[1] == -1 then Parsed(false, [], 2)
    else Then(Pair(vs[0], vs[1]), 2, Parse(vs[2..], n - 2, room - 1))
  }

  function Min(a: nat, b: nat): nat {
    if a < b then a else b
  }

  /** How much of a text a count of pairs and the room let the parser read. */
  function Reach(length: nat, pairs: nat, room: nat): nat {
    Min(length, 2 * Min(pairs, room))
  }

  lemma AllGoodPair(s: seq<Value>)
    requires |s| >= 2
    ensures AllGood(s) <==> s[0] != -1 && s[1] != -1 && AllGood(s[2..])
  {
    if s[0] != -1 && s[1] != -1 && AllGood(s[2..]) {
      forall j | 0 <= j < |s| ensures s[j] != -1 {
        assert j >= 2 ==> s[j] == s[2..][j - 2];
      }
    }
  }

  /** With an even count the parser reads just that part: it succeeds exactly when every character
      there is a digit, and then stores what they mean. */
  lemma {:induction false} EvenParse(vs: seq<Value>, pairs: nat, room: nat)
    ensures var p, s := Parse(vs, 2 * pairs, room), vs[..Reach(|vs|, pairs, room)];
            && (p.ok <==> AllGood(s))
            && (p.ok ==> p.bytes == Decode(s) && p.used == |s|)
            && p.used <= |s|
  {
    var s := vs[..Reach(|vs|, pairs, room)];
    if |s| >= 2 {
      EvenParse(vs[2..], pairs - 1, room - 1);
      EvenStep(vs, pairs, room, s);
    } else {
      ShortParse(vs, pairs, room, s);
    }
  }

  /** The last round, on one digit or none. */
  lemma ShortParse(vs: seq<Value>, pairs: nat, room: nat, s: seq<Value>)
    requires s == vs[..Reach(|vs|, pairs, room)] && |s| <= 1
    ensures var p := Parse(vs, 2 * pairs, room);
            p.used == |s| && (p.ok <==> AllGood(s)) && (p.ok ==> p.bytes == Decode(s))
  {
  }

  /** A round on two characters, given what the rest comes to. */
  lemma EvenStep(vs: seq<Value>, pairs: nat, room: nat, s: seq<Value>)
    requires s == vs[..Reach(|vs|, pairs, room)] && |s| >= 2
    requires var p, rest := Parse(vs[2..], 2 * (pairs - 1), room - 1), vs[2..][..Reach(|vs| - 2, pairs - 1, room - 1)];
             (p.ok <==> AllGood(rest)) && (p.ok ==> p.bytes == Decode(rest) && p.used == |rest|) && p.used <= |rest|
    ensures var p := Parse(vs, 2 * pairs, room);
            (p.ok <==> AllGood(s)) && (p.ok ==> p.bytes == Decode(s) && p.used == |s|) && p.used <= |s|
  {
    assert s[2..] == vs[2..][..Reach(|vs| - 2, pairs - 1, room - 1)];
    assert s[0] == vs[0] && s[1] == vs[1];
    AllGoodPair(s);
  }

  /** A whole text of pairs of digits. */
  lemma WholeParse(vs: seq<Value>, pairs: nat)
    requires AllGood(vs) && |vs| == 2 * pairs
    ensures Parse(vs, 2 * pairs, pairs) == Parsed(true, Decode(vs), 2 * pairs)
  {
    EvenParse(vs, pairs, pairs);
    assert vs[..|vs|] == vs;
  }

  /** With an odd count it reads past that count exactly when the text goes on, there is room for
      one more byte, and no bad digit stopped it before. */
  lemma {:induction false} OddParse(vs: seq<Value>, n: nat, room: nat)
    requires n % 2 == 1
    ensures Parse(vs, n, room).used > n <==> |vs| > n && room > (n + 1) / 2 && AllGood(vs[..n])
    decreases n
  {
    if n >= 3 && |vs| >= 2 && room > 0 && vs[0] != -1 && vs[1] != -1 {
      OddParse(vs[2..], n - 2, room - 1);
      if |vs| > n {
        var s := vs[..n];
        assert s[2..] == vs[2..][..n - 2];
        AllGoodPair(s);
      }
    } else if |vs| > n {
      assert vs[..n][0] == vs[0] && (n > 1 ==> vs[..n][1] == vs[1]);
    }
  }

  /** Two digits read where one was asked for: the text "12" with a count of one and room for two bytes. */
  lemma OddParseOverruns()
    ensures Parse(Values([0x31, 0x32]), 1, 2) == Parsed(true, [0x10, 0x20], 2)
  {
    var vs := Values([0x31, 0x32]);
    assert vs == [1, 2] && vs[1..] == [2];
  }

  /** A C string: the bytes before the first zero. */
  function Length(src: seq<Byte>): (k: nat)
    requires 0 in src
    ensures k < |src| && src[k] == 0 && forall j :: 0 <= j < k ==> src[j] != 0
  {
    if src[0] == 0 then 0 else 1 + Length(src[1..])
  }

  function Text(src: seq<Byte>): (t: seq<Byte>)
    requires 0 in src
  {
    src[..Length(src)]
  }

  /** One round of the loop of serval_hexton from place `i`: the byte to store, or -1 at a bad digit, and
      where the place and the first counter are then. */
  function Round(vs: seq<Value>, i: nat, n: nat): (r: (int, nat, nat))
    requires i < |vs| && n > 0
    ensures -1 <= r.0 < 256 && i < r.1 <= |vs|
  {
    if vs[i] == -1 then (-1, i + 1, n - 1)
    else if i + 1 == |vs| then (Pair(vs[i], 0), i + 1, n - 1)
    else if n == 1 then (Pair(vs[i], 0), i + 1, SIZE_MAX)
    else (if vs[i + 1] == -1 then -1 else Pair(vs[i], vs[i + 1]), i + 2, n - 2)
  }

  /** The rounds from there on, `done` being stored already. */
  function Rounds(vs: seq<Value>, i: nat, n: nat, room: nat, done: seq<Byte>): Parsed
    requires i <= |vs|
    decreases |vs| - i
  {
    if i == |vs| || room == 0 || n == 0 then Parsed(true, done, i)
    else
      var r := Round(vs, i, n);
      if r.0 == -1 then Parsed(false, done, r.1) else Rounds(vs, r.1, r.2, room - 1, done + [r.0])
  }

  /** They come to what the parser does with the rest of the text. */
  lemma {:induction false} RoundsParse(vs: seq<Value>, i: nat, n: nat, room: nat, done: seq<Byte>)
    requires i <= |vs|
    ensures var p := Parse(vs[i..], n, room); Rounds(vs, i, n, room, done) == Parsed(p.ok, done + p.bytes, i + p.used)
    decreases |vs| - i
  {
    if i < |vs| && room > 0 && n > 0 {
      var r := Round(vs, i, n);
      assert vs[i..][r.1 - i..] == vs[r.1..];
      if r.0 != -1 {
        RoundsParse(vs, r.1, r.2, room - 1, done + [r.0]);
        ConcatAssoc(done, [r.0], Parse(vs[r.1..], r.2, room - 1).bytes);
      }
    }
  }

  method ReadByte(src: seq<Byte>, i0: nat, n0: nat) returns (value: int, i: nat, n: nat)
    requires 0 in src && i0 < Length(src) && n0 > 0
    ensures (value, i, n) == Round(Values(Text(src)), i0, n0)
  {
    i, n := i0 + 1, n0 - 1;
    value := HexToByte(src[i0]);
    if value == -1 {
      return;
    }
    value := value * 16;
    if src[i] != 0 {
      if n == 0 {
        n := SIZE_MAX;
      } else {
        n := n - 1;
        var ret := HexToByte(src[i]);
        i := i + 1;
        if ret == -1 {
          return -1, i, n;
        }
        value := value + ret;
      }
    }
  }

  /** The loop of serval_hexton. */
  method Store(src: seq<Byte>, srcLen: nat, dst: array<Byte>, dstLen: nat, ghost vs: seq<Value>)
    returns (ok: bool, ghost done: seq<Byte>, ghost used: nat)
    requires 0 in src && dstLen <= dst.Length && vs == Values(Text(src))
    modifies dst
    ensures Rounds(vs, 0, srcLen, dstLen, []) == Parsed(ok, done, used) && |done| <= dstLen
    ensures forall j :: 0 <= j < |done| ==> dst[j] == done[j]
    ensures forall j :: |done| <= j < dst.Length ==> dst[j] == old(dst[j])
  {
    done := [];
    var i, n, room: nat, k := 0, srcLen, dstLen, 0;
    while src[i] != 0 && room != 0 && n != 0
      invariant i <= |vs| && k + room == dstLen && |done| == k
      invariant forall j :: 0 <= j < k ==> dst[j] == done[j]
      invariant forall j :: k <= j < dst.Length ==> dst[j] == old(dst[j])
      invariant Rounds(vs, i, n, room, done) == Rounds(vs, 0, srcLen, dstLen, [])
      decreases |vs| - i
    {
      var value;
      value, i, n := ReadByte(src, i, n);
      room := room - 1;
      if value == -1 {
        return false, done, i;
      }
      dst[k] := value;
      k := k + 1;
      done := done + [value];
    }
    return true, done, i;
  }

  /** serval_hexton */
  method Hexton(src: seq<Byte>, srcLen: nat, dst: array<Byte>, dstLen: nat) returns (ok: bool)
    requires 0 in src && dstLen <= dst.Length
    modifies dst
    ensures var p := Parse(Values(Text(src)), srcLen, dstLen);
            && ok == p.ok
            && dst[..|p.bytes|] == p.bytes
            && dst[|p.bytes|..] == old(dst[|p.bytes|..])
  {
    ghost var vs := Values(Text(src));
    RoundsParse(vs, 0, srcLen, dstLen, []);
    assert vs[0..] == vs;
    ghost var done, used;
    ok, done, used := Store(src, srcLen, dst, dstLen, vs);
    assert done == Parse(vs, srcLen, dstLen).bytes;
  }

  // ---------- The printer ----------

  lemma {:induction false} EncodeAt(b: seq<Byte>, j: nat)
    requires j < |b|
    ensures Encode(b)[2 * j] == High(b[j]) && Encode(b)[2 * j + 1] == Low(b[j])
  {
    if j > 0 {
      EncodeAt(b[1..], j - 1);
    }
  }

  /** serval_ntohex: as many digits as fit before the zero, which is stored if anything is. */
  method Ntohex(src: seq<Byte>, dst: array<Byte>, dstLen: nat)
    requires dstLen <= dst.Length
    modifies dst
    ensures dstLen == 0 ==> dst[..] == old(dst[..])
    ensures dstLen > 0 ==>
              var m := Min(2 * |src|, dstLen - 1);
              dst[..m] == Encode(src)[..m] && dst[m] == 0 && dst[m + 1..] == old(dst[m + 1..])
  {
    var left, room: nat, k, j := |src|, dstLen, 0, 0;
    while left != 0 && room > 1
      invariant j + left == |src| && k + room == dstLen
      invariant k == 2 * j || (k == 2 * j - 1 && room == 1)
      invariant dstLen > 0 ==> room > 0
      invariant k <= 2 * |src| && forall i :: 0 <= i < k ==> dst[i] == Encode(src)[i]
      invariant forall i :: k <= i < dst.Length ==> dst[i] == old(dst[i])
      decreases left
    {
      EncodeAt(src, j);
      dst[k] := High(src[j]);
      k := k + 1;
      room := room - 1;
      if room > 1 {
        dst[k] := Low(src[j]);
        k := k + 1;
        room := room - 1;
      }
      j := j + 1;
      left := left - 1;
    }
    if room != 0 {
      dst[k] := 0;
    }
  }

  /** What is printed parses to the bytes it was printed from. */
  lemma RoundTrip(b: seq<Byte>)
    ensures Parse(Values(Encode(b)), 2 * |b|, |b|) == Parsed(true, b, 2 * |b|)
  {
    DecodeUndoesEncode(b);
    WholeParse(Values(Encode(b)), |b|);
  }

  /** Printing into enough room and parsing the result gives the bytes back. */
  method PrintThenParse(b: seq<Byte>, text: array<Byte>, back: array<Byte>) returns (ok: bool)
    requires text.Length > 2 * |b| && back.Length >= |b| && text != back
    modifies text, back
    ensures ok && back[..|b|] == b
  {
    Ntohex(b, text, text.Length);
    ghost var t := text[..];
    assert t[..2 * |b|] == Encode(b);
    PrintedText(b, t);
    RoundTrip(b);
    ok := Hexton(text[..], 2 * |b|, back, |b|);
  }

  lemma PrintedText(b: seq<Byte>, t: seq<Byte>)
    requires |t| > 2 * |b| && t[..2 * |b|] == Encode(b) && t[2 * |b|] == 0
    ensures 0 in t && Text(t) == Encode(b)
  {
    forall j | 0 <= j < 2 * |b| ensures t[j] != 0 {
      assert t[j] == Encode(b)[j] && IsHex(Encode(b)[j]);
    }
  }
}
