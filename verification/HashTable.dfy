/** The hash table of `src/common/hashtable.c`, whose elements count their references. A locked
    section is one step, and a slot's chain is a sequence with its newest element in front. */
module HashTable {
  import opened Division

  /** Bitwise and, on the naturals that stand for unsigned ints. */
  function And(a: nat, b: nat): (r: nat)
    ensures r <= b
  {
    if a == 0 || b == 0 then 0 else 2 * And(a / 2, b / 2) + (a % 2) * (b % 2)
  }

  /** Each bit of the result is set exactly when both operands have it. */
  lemma {:induction false} AndBits(a: nat, b: nat, i: nat)
    ensures Bit(And(a, b), i) <==> Bit(a, i) && Bit(b, i)
    decreases i
  {
    if i > 0 && a != 0 && b != 0 {
      AndBits(a / 2, b / 2, i - 1);
      assert And(a, b) / 2 == And(a / 2, b / 2);
    } else if i > 0 {
      NoBits(i);
    }
  }

  predicate Bit(n: nat, i: nat) {
    if i == 0 then n % 2 == 1 else Bit(n / 2, i - 1)
  }

  lemma {:induction false} NoBits(i: nat)
    ensures !Bit(0, i)
    decreases i
  {
    if i > 0 {
      NoBits(i - 1);
    }
  }

  lemma ModTwice(a: nat, p: nat)
    requires p > 0
    ensures a % (2 * p) == 2 * ((a / 2) % p) + a % 2
  {
    var q, r := (a / 2) / p, (a / 2) % p;
    assert q * (2 * p) == 2 * (q * p);
    DivModIs(a, 2 * p, q, 2 * r + a % 2);
  }

  /** With a power of two for its size, a table's slots are the remainders of the hash. */
  lemma {:induction false} MaskIsMod(a: nat, k: nat)
    ensures And(a, Pow2(k) - 1) == a % Pow2(k)
    decreases k
  {
    if k > 0 {
      var p := Pow2(k - 1);
      assert Pow2(k) == 2 * p && (2 * p - 1) / 2 == p - 1 && (2 * p - 1) % 2 == 1;
      MaskIsMod(a / 2, k - 1);
      ModTwice(a, p);
    }
  }

  /** An element; `equal` is what its equalfn says of a key. */
  class Elm<!K> {
    const hashfn: K -> nat
    const equal: K -> bool
    const hasFreefn: bool
    var refcount: nat
    var hash: nat
    var hashed: bool

    /** The references that the creator and lookups hold, and how often freefn was called. */
    ghost var owners: nat
    ghost var freed: nat

    /** Each reference belongs to an owner or to the table, and freefn was called when the last one went. */
    ghost predicate Counted()
      reads this
    {
      && refcount == owners + (if hashed then 1 else 0)
      && freed == if refcount == 0 && hasFreefn then 1 else 0
    }

    /** hashelm_init */
    constructor (hashfn: K -> nat, equal: K -> bool, hasFreefn: bool)
      ensures this.hashfn == hashfn && this.equal == equal && this.hasFreefn == hasFreefn
      ensures Counted() && owners == 1 && !hashed
    {
      this.hashfn, this.equal, this.hasFreefn := hashfn, equal, hasFreefn;
      refcount, hash, hashed, owners, freed := 1, 0, false, 1, 0;
    }

    /** hashelm_hold */
    method Hold()
      requires Counted() && refcount > 0
      modifies this`refcount, this`owners
      ensures Counted() && refcount == old(refcount) + 1 && owners == old(owners) + 1
    {
      refcount := refcount + 1;
      owners := owners + 1;
    }

    /** The decrement of hashelm_put; the reference dropped is no longer counted as an owner's or the table's. */
    method Drop()
      requires refcount > 0
      modifies this`refcount, this`freed
      ensures refcount == old(refcount) - 1
      ensures freed == old(freed) + if refcount == 0 && hasFreefn then 1 else 0
    {
      refcount := refcount - 1;
      if refcount == 0 && hasFreefn {
        freed := freed + 1;
      }
    }

    /** hashelm_put by an owner: freefn is called exactly when no owner is left and no table has it. */
    method Put()
      requires Counted() && owners > 0
      modifies this`refcount, this`freed, this`owners
      ensures Counted() && owners == old(owners) - 1
      ensures freed == 1 <==> owners == 0 && !hashed && hasFreefn
    {
      owners := owners - 1;
      Drop();
    }
  }

  /** A hashed element and its slot. */
  datatype Entry<!K> = Entry(elm: Elm<K>, slot: nat)

  function Chain<K>(order: seq<Entry<K>>, i: nat): seq<Elm<K>> {
    if order == [] then []
    else (if order[0].slot == i then [order[0].elm] else []) + Chain(order[1..], i)
  }

  /** The first element of a chain that equals the key. */
  function First<K>(xs: seq<Elm<K>>, key: K): (r: Elm?<K>)
    ensures r == null ==> forall x :: x in xs ==> !x.equal(key)
    ensures r != null ==> r in xs && r.equal(key)
  {
    if xs == [] then null else if xs[0].equal(key) then xs[0] else First(xs[1..], key)
  }

  function Elms<K>(order: seq<Entry<K>>): (r: seq<Elm<K>>)
    ensures |r| == |order| && forall j :: 0 <= j < |r| ==> r[j] == order[j].elm
  {
    if order == [] then [] else [order[0].elm] + Elms(order[1..])
  }

  ghost predicate Unique<K>(order: seq<Entry<K>>) {
    forall i, j :: 0 <= i < j < |order| ==> order[i].elm != order[j].elm
  }

  lemma {:induction false} ChainHolds<K>(order: seq<Entry<K>>, i: nat, x: Elm<K>)
    ensures x in Chain(order, i) <==> Entry(x, i) in order
  {
    if order != [] {
      ChainHolds(order[1..], i, x);
      assert order == [order[0]] + order[1..];
    }
  }

  lemma FirstCons<K>(x: Elm<K>, xs: seq<Elm<K>>, key: K)
    ensures First([x] + xs, key) == if x.equal(key) then x else First(xs, key)
  {
    assert ([x] + xs)[1..] == xs;
  }

  lemma ChainCons<K>(e: Entry<K>, rest: seq<Entry<K>>, i: nat)
    ensures Chain([e] + rest, i) == if e.slot == i then [e.elm] + Chain(rest, i) else Chain(rest, i)
    ensures Elms([e] + rest) == [e.elm] + Elms(rest)
  {
    assert ([e] + rest)[1..] == rest;
  }

  /** Looking in one slot finds the newest equal element of the whole table exactly when there is
      none or it is in that slot. */
  lemma {:induction false} SlotSuffices<K>(order: seq<Entry<K>>, i: nat, key: K)
    requires Unique(order)
    ensures var r := First(Elms(order), key);
            First(Chain(order, i), key) == r <==> r == null || Entry(r, i) in order
  {
    if order != [] {
      var e, rest := order[0], order[1..];
      assert order == [e] + rest;
      ChainCons(e, rest, i);
      FirstCons(e.elm, Chain(rest, i), key);
      FirstCons(e.elm, Elms(rest), key);
      if e.elm.equal(key) {
        assert Entry(e.elm, i) !in rest;
        ChainHolds(rest, i, e.elm);
      } else {
        SlotSuffices(rest, i, key);
      }
    }
  }

  function Without<K>(xs: seq<Elm<K>>, x: Elm<K>): seq<Elm<K>> {
    if xs == [] then [] else if xs[0] == x then xs[1..] else [xs[0]] + Without(xs[1..], x)
  }

  function Unhashed<K>(order: seq<Entry<K>>, x: Elm<K>): seq<Entry<K>> {
    if order == [] then [] else if order[0].elm == x then order[1..] else [order[0]] + Unhashed(order[1..], x)
  }

  lemma {:induction false} UnhashedHolds<K>(order: seq<Entry<K>>, x: Elm<K>, e: Entry<K>)
    requires Unique(order)
    ensures e in Unhashed(order, x) <==> e in order && e.elm != x
  {
    if order != [] {
      var rest := order[1..];
      assert order == [order[0]] + rest;
      UnhashedHolds(rest, x, e);
    }
  }

  lemma {:induction false} UnhashedIs<K>(order: seq<Entry<K>>, x: Elm<K>, slot: nat)
    requires Unique(order) && Entry(x, slot) in order
    ensures Unique(Unhashed(order, x)) && |Unhashed(order, x)| == |order| - 1
  {
    var e, rest := order[0], order[1..];
    assert order == [e] + rest;
    if e.elm != x {
      UnhashedIs(rest, x, slot);
      forall d | d in Unhashed(rest, x) ensures d.elm != e.elm {
        UnhashedHolds(rest, x, d);
      }
    }
  }

  /** Taking an element out of its chain is taking it out of the table. */
  lemma {:induction false} ChainUnhashed<K>(order: seq<Entry<K>>, x: Elm<K>, i: nat)
    requires Unique(order)
    ensures Chain(Unhashed(order, x), i) == Without(Chain(order, i), x)
  {
    if order != [] {
      var e, rest := order[0], order[1..];
      assert order == [e] + rest;
      ChainCons(e, rest, i);
      if e.elm == x {
        assert Entry(x, i) !in rest;
        ChainHolds(rest, i, x);
        WithoutMissing(Chain(rest, i), x);
      } else {
        ChainUnhashed(rest, x, i);
        ChainCons(e, Unhashed(rest, x), i);
      }
    }
  }

  lemma {:induction false} WithoutMissing<K>(xs: seq<Elm<K>>, x: Elm<K>)
    requires x !in xs
    ensures Without(xs, x) == xs
  {
    if xs != [] {
      WithoutMissing(xs[1..], x);
    }
  }

  lemma {:induction false} WithoutOne<K>(xs: seq<Elm<K>>, x: Elm<K>)
    requires x in xs
    ensures |Without(xs, x)| == |xs| - 1
  {
    if xs[0] != x {
      WithoutOne(xs[1..], x);
    }
  }

  function Sum(counts: seq<int>): int {
    if counts == [] then 0 else Sum(counts[..|counts| - 1]) + counts[|counts| - 1]
  }

  lemma {:induction false} EmptySum(counts: seq<int>)
    requires forall i :: 0 <= i < |counts| ==> counts[i] == 0
    ensures Sum(counts) == 0
  {
    if counts != [] {
      EmptySum(counts[..|counts| - 1]);
    }
  }

  lemma {:induction false} SumBump(a: seq<int>, b: seq<int>, i: nat)
    requires |a| == |b| && i < |a| && b[i] == a[i] + 1
    requires forall j :: 0 <= j < |a| && j != i ==> b[j] == a[j]
    ensures Sum(b) == Sum(a) + 1
  {
    var n := |a| - 1;
    if i < n {
      SumBump(a[..n], b[..n], i);
    } else {
      assert a[..n] == b[..n];
    }
  }

  ghost function Lengths<K>(order: seq<Entry<K>>, size: nat): (r: seq<int>)
    ensures |r| == size && forall i :: 0 <= i < size ==> r[i] == |Chain(order, i)|
  {
    seq(size, i requires 0 <= i => |Chain(order, i)|)
  }

  /** The chains together hold every element of the table once. */
  lemma {:induction false} LengthsAddUp<K>(order: seq<Entry<K>>, size: nat)
    requires forall e :: e in order ==> e.slot < size
    ensures Sum(Lengths(order, size)) == |order|
  {
    if order == [] {
      EmptySum(Lengths(order, size));
    } else {
      LengthsAddUp(order[1..], size);
      SumBump(Lengths(order[1..], size), Lengths(order, size), order[0].slot);
    }
  }

  class Table<!K> {
    const mask: nat
    const chains: array<seq<Elm<K>>>
    const counts: array<int>
    var count: int

    /** The hashed elements, newest first, and a set that they are in. */
    ghost var order: seq<Entry<K>>
    ghost var elms: set<Elm<K>>

    function Slot(hash: nat): (i: nat)
      ensures i <= mask
    {
      And(hash, mask)
    }

    ghost predicate Held(e: Entry<K>)
      requires e.elm in elms
      reads this, elms
    {
      e.elm.hashed && e.elm.Counted() && e.slot == Slot(e.elm.hash)
    }

    ghost predicate AllHeld()
      reads this, elms
    {
      && (forall e :: e in order ==> e.elm in elms)
      && (forall e :: e in order ==> Held(e))
    }

    /** The chains hold the hashed elements, each in its slot, newest first. */
    ghost predicate Linked()
      reads this, chains
    {
      && chains.Length == counts.Length == mask + 1 && Unique(order)
      && forall i :: 0 <= i <= mask ==> chains[i] == Chain(order, i)
    }

    ghost predicate Tallied()
      reads this, counts
    {
      && counts.Length == mask + 1 && count == |order|
      && forall i :: 0 <= i <= mask ==> counts[i] == |Chain(order, i)|
    }

    ghost predicate Valid()
      reads this, chains, counts, elms
    {
      Linked() && Tallied() && AllHeld()
    }

    /** hashtable_init */
    constructor (size: nat)
      requires size > 0
      ensures Valid() && mask == size - 1 && order == [] && elms == {} && fresh(chains) && fresh(counts)
    {
      mask, count, order, elms := size - 1, 0, [], {};
      chains := new seq<Elm<K>>[size](_ => []);
      counts := new int[size](_ => 0);
    }

    /** The table's count is the sum of the slots' counts, and each of those the length of its chain. */
    lemma CountIsSum()
      requires Valid()
      ensures count == Sum(counts[..])
      ensures forall i :: 0 <= i <= mask ==> counts[i] == |chains[i]|
    {
      LengthsAddUp(order, mask + 1);
      assert counts[..] == Lengths(order, mask + 1);
    }

    /** The slot's share of hashelm_hash. */
    method Link(he: Elm<K>, slot: nat)
      requires Linked() && Tallied() && slot <= mask && forall e :: e in order ==> e.elm != he
      modifies this, chains, counts
      ensures Linked() && Tallied()
      ensures order == [Entry(he, slot)] + old(order) && elms == old(elms) + {he}
    {
      forall i | 0 <= i <= mask
        ensures Chain([Entry(he, slot)] + order, i) == if slot == i then [he] + Chain(order, i) else Chain(order, i)
      {
        ChainCons(Entry(he, slot), order, i);
      }
      counts[slot] := counts[slot] + 1;
      count := count + 1;
      chains[slot] := [he] + chains[slot];
      order, elms := [Entry(he, slot)] + order, elms + {he};
    }

    /** hashelm_hash */
    method Hash(he: Elm<K>, key: K) returns (ret: int)
      requires Valid() && he.Counted() && he.refcount > 0
      modifies this, chains, counts, he`refcount, he`hash, he`hashed
      ensures Valid() && he.Counted() && he.hashed
      ensures ret == if old(he.hashed) then -1 else 0
      ensures old(he.hashed) ==> unchanged(this) && unchanged(chains) && unchanged(counts) && unchanged(he)
      ensures !old(he.hashed) ==> order == [Entry(he, Slot(he.hashfn(key)))] + old(order)
      ensures !old(he.hashed) ==> elms == old(elms) + {he} && he.hash == he.hashfn(key)
    {
      if he.hashed {
        return -1;
      }
      assert forall e :: e in order ==> e.elm != he;
      he.hash := he.hashfn(key);
      Link(he, Slot(he.hash));
      he.hashed := true;
      he.refcount := he.refcount + 1;
      ret := 0;
    }

    /** The walk in hashtable_lookup. */
    method Find(slot: nat, key: K) returns (he: Elm?<K>)
      requires Linked() && slot <= mask
      ensures he == First(Chain(order, slot), key)
    {
      var chain := chains[slot];
      var j := 0;
      while j < |chain|
        invariant j <= |chain| && First(chain, key) == First(chain[j..], key)
      {
        if chain[j].equal(key) {
          return chain[j];
        }
        assert chain[j..][1..] == chain[j + 1..];
        j := j + 1;
      }
      he := null;
    }

    /** What hashtable_lookup finds: the newest element that equals the key, exactly when there is none
        or that one is in the key's slot, which hash functions that agree with equality ensure. */
    method Answer(key: K, hashfn: K -> nat) returns (he: Elm?<K>)
      requires Linked() && AllHeld()
      ensures he == First(Chain(order, Slot(hashfn(key))), key)
      ensures var newest := First(Elms(order), key);
              he == newest <==> newest == null || Slot(newest.hash) == Slot(hashfn(key))
      ensures (forall e :: e in order && e.elm.equal(key) ==> e.elm.hash == hashfn(key)) ==>
                he == First(Elms(order), key)
      ensures he != null ==> he in Elms(order) && he.equal(key) && Entry(he, Slot(hashfn(key))) in order
    {
      he := Find(Slot(hashfn(key)), key);
      LookupIs(key, Slot(hashfn(key)));
    }

    /** hashtable_lookup: what it finds has one more owner, and nothing else changes. */
    method Lookup(key: K, hashfn: K -> nat) returns (he: Elm?<K>)
      requires Valid()
      modifies elms`refcount, elms`owners
      ensures Valid() && he == First(Chain(order, Slot(hashfn(key))), key)
      ensures var newest := First(Elms(order), key);
              he == newest <==> newest == null || Slot(newest.hash) == Slot(hashfn(key))
      ensures (forall e :: e in order && e.elm.equal(key) ==> e.elm.hash == hashfn(key)) ==>
                he == First(Elms(order), key)
      ensures he != null ==> he in elms && he in Elms(order) && he.equal(key)
      ensures forall x :: x in elms ==>
                var more := if x == he then 1 else 0;
                x.refcount == old(x.refcount) + more && x.owners == old(x.owners) + more
    {
      he := Answer(key, hashfn);
      if he != null {
        Share(he, Slot(hashfn(key)));
      }
    }

    /** The hashelm_hold of a lookup. */
    method Share(he: Elm<K>, ghost slot: nat)
      requires Valid() && Entry(he, slot) in order
      modifies he`refcount, he`owners
      ensures Valid() && he.refcount == old(he.refcount) + 1 && he.owners == old(he.owners) + 1
    {
      assert Held(Entry(he, slot));
      he.Hold();
    }

    lemma LookupIs(key: K, i: nat)
      requires Linked() && AllHeld()
      ensures var r, newest := First(Chain(order, i), key), First(Elms(order), key);
              && (r == newest <==> newest == null || Slot(newest.hash) == i)
              && (r != null ==> Entry(r, i) in order && r in Elms(order))
              && (newest != null ==> Entry(newest, Slot(newest.hash)) in order)
    {
      SlotSuffices(order, i, key);
      var r, newest := First(Chain(order, i), key), First(Elms(order), key);
      if r != null {
        ChainHolds(order, i, r);
        var j :| 0 <= j < |order| && order[j] == Entry(r, i);
        assert Elms(order)[j] == r;
      }
      if newest != null {
        var j :| 0 <= j < |order| && Elms(order)[j] == newest;
        assert Held(order[j]);
        assert Entry(newest, Slot(newest.hash)) in order;
        if Entry(newest, i) in order {
          assert Held(Entry(newest, i));
        }
      }
    }

    /** hlist_del_init of a hashed element. */
    method Detach(he: Elm<K>, slot: nat)
      requires Linked() && Entry(he, slot) in order && slot <= mask
      modifies this`order, chains
      ensures Linked() && order == Unhashed(old(order), he) && |order| == |old(order)| - 1
      ensures forall i :: 0 <= i <= mask ==> |Chain(order, i)| == |Chain(old(order), i)| - if i == slot then 1 else 0
    {
      UnhashedChains(he, slot);
      chains[slot] := Without(chains[slot], he);
      order := Unhashed(order, he);
    }

    /** The element is out of its chain; nothing else has changed. */
    method Leave(he: Elm<K>)
      requires Valid() && he.hashed && Entry(he, Slot(he.hash)) in order
      modifies this`order, chains, he`hashed
      ensures Linked() && AllHeld() && !he.hashed && order == Unhashed(old(order), he) && |order| == |old(order)| - 1
      ensures forall e :: e in order ==> e.elm != he
      ensures forall i :: 0 <= i <= mask ==>
                |Chain(order, i)| == |Chain(old(order), i)| - if i == Slot(he.hash) then 1 else 0
    {
      forall e | e in Unhashed(order, he) ensures e in order && e.elm != he {
        UnhashedHolds(order, he, e);
      }
      Detach(he, Slot(he.hash));
      he.hashed := false;
    }

    /** The slot and the table count one element less, and a reference to the element is put. */
    method Untally(he: Elm<K>, slot: nat, ghost home: Table<K>)
      requires Linked() && AllHeld() && home.Linked() && home.AllHeld() && slot <= mask && he.refcount > 0
      requires forall e :: e in order ==> e.elm != he
      requires forall e :: e in home.order ==> e.elm != he
      modifies this`count, counts, he`refcount, he`freed
      ensures Linked() && AllHeld() && home.Linked() && home.AllHeld()
      ensures count == old(count) - 1 && counts[slot] == old(counts[slot]) - 1
      ensures forall i :: 0 <= i <= mask && i != slot ==> counts[i] == old(counts[i])
      ensures he.refcount == old(he.refcount) - 1
      ensures he.freed == old(he.freed) + if he.refcount == 0 && he.hasFreefn then 1 else 0
    {
      counts[slot] := counts[slot] - 1;
      count := count - 1;
      he.Drop();
    }

    /** Another table shares no memory and no element with this one. */
    ghost predicate Apart(home: Table<K>, he: Elm<K>)
      reads this
    {
      home == this || (home.chains != chains && home.counts != counts && forall e :: e in order ==> e.elm != he)
    }

    /** hashelm_unhash. A hashed element leaves the chain that its links are in, which is one of `home`. The
        counts of this table go down and a reference is put whatever that is, even with the element not
        hashed. So the table stays right exactly when the element was hashed in it; of a table
        it was in elsewhere, the counts are wrong. Not hashed, it loses an owner's
        reference, and with one owner it is freed under it. */
    method Unhash(he: Elm<K>, home: Table<K>)
      requires Valid() && home.Valid() && Apart(home, he)
      requires he.Counted() && he.refcount > 0 && (he.hashed ==> Entry(he, home.Slot(he.hash)) in home.order)
      modifies this`count, counts, home`order, home.chains, he`refcount, he`hashed, he`freed
      ensures home.order == if old(he.hashed) then Unhashed(old(home.order), he) else old(home.order)
      ensures home != this ==> order == old(order) && home.count == old(home.count)
      ensures Linked() && AllHeld() && home.Linked() && home.AllHeld() && !he.hashed && count == old(count) - 1
      ensures Valid() <==> old(he.hashed) && home == this
      ensures home != this ==> (home.Valid() <==> !old(he.hashed))
      ensures he.Counted() <==> old(he.hashed)
      ensures he.freed == 1 <==> he.hasFreefn && he.owners == if old(he.hashed) then 0 else 1
    {
      var slot := Slot(he.hash);
      if he.hashed {
        assert home.Held(Entry(he, home.Slot(he.hash)));
        home.Leave(he);
      } else {
        assert forall e :: e in order ==> Held(e);
        assert forall e :: e in home.order ==> home.Held(e);
      }
      Untally(he, slot, home);
    }

    lemma UnhashedChains(he: Elm<K>, slot: nat)
      requires Linked() && Entry(he, slot) in order
      ensures var order' := Unhashed(order, he);
              && Unique(order') && |order'| == |order| - 1 && |Chain(order', slot)| == |Chain(order, slot)| - 1
              && Chain(order', slot) == Without(Chain(order, slot), he)
              && forall i :: 0 <= i <= mask && i != slot ==> Chain(order', i) == Chain(order, i)
    {
      UnhashedIs(order, he, slot);
      ChainUnhashed(order, he, slot);
      ChainHolds(order, slot, he);
      WithoutOne(Chain(order, slot), he);
      forall i | 0 <= i <= mask && i != slot ensures Chain(Unhashed(order, he), i) == Chain(order, i) {
        ChainUnhashed(order, he, i);
        ChainHolds(order, i, he);
        WithoutMissing(Chain(order, i), he);
      }
    }

    /** Of the elements once hashed, those that no longer are had their reference put. */
    ghost predicate Released(was: seq<Entry<K>>)
      reads this, elms
    {
      && (forall e :: e in was ==> e.elm in elms)
      && (forall e :: e in was ==> e.elm.Counted() && (e in order || !e.elm.hashed))
    }

    /** The first element leaves its chain. */
    method TakeFirst(i: nat) returns (he: Elm<K>)
      requires Linked() && i <= mask && chains[i] != []
      modifies this`order, chains
      ensures Linked() && Entry(he, i) in old(order) && order == Unhashed(old(order), he)
      ensures Chain(order, i) == old(chains[i][1..])
      ensures forall j :: 0 <= j <= mask && j != i ==> Chain(order, j) == old(Chain(order, j))
    {
      he := chains[i][0];
      ChainHolds(order, i, he);
      UnhashedChains(he, i);
      chains[i] := chains[i][1..];
      order := Unhashed(order, he);
    }

    /** One round of the inner loop of hashtable_fini. */
    method PopFirst(i: nat, ghost was: seq<Entry<K>>)
      requires Linked() && AllHeld() && i <= mask && chains[i] != [] && Released(was)
      modifies this`order, chains, elms`refcount, elms`hashed, elms`freed
      ensures Linked() && AllHeld() && Released(was)
      ensures Chain(order, i) == old(chains[i][1..])
      ensures forall j :: 0 <= j <= mask && j != i ==> Chain(order, j) == old(Chain(order, j))
    {
      var he := TakeFirst(i);
      assert old(Held(Entry(he, i)));
      forall e ensures e in order <==> e in old(order) && e.elm != he {
        UnhashedHolds(old(order), he, e);
      }
      he.hashed := false;
      he.Drop();
    }

    method FiniSlot(i: nat, ghost was: seq<Entry<K>>)
      requires Linked() && AllHeld() && i <= mask && Released(was)
      modifies this`order, chains, counts, elms`refcount, elms`hashed, elms`freed
      ensures Linked() && AllHeld() && Released(was)
      ensures Chain(order, i) == [] && counts[i] == 0
      ensures forall j :: 0 <= j <= mask && j != i ==>
                Chain(order, j) == old(Chain(order, j)) && counts[j] == old(counts[j])
    {
      while chains[i] != []
        invariant Linked() && AllHeld() && Released(was)
        invariant forall j :: 0 <= j <= mask && j != i ==> Chain(order, j) == old(Chain(order, j))
        decreases |chains[i]|
        modifies this`order, chains, elms`refcount, elms`hashed, elms`freed
      {
        PopFirst(i, was);
      }
      counts[i] := 0;
    }

    /** hashtable_fini puts the table's reference to every element, once. */
    method Fini()
      requires Valid()
      modifies this`order, this`count, chains, counts, elms`refcount, elms`hashed, elms`freed
      ensures Valid() && order == []
      ensures forall e :: e in old(order) ==> !e.elm.hashed && e.elm.Counted()
    {
      ghost var was := order;
      for i := 0 to mask + 1
        invariant Linked() && AllHeld() && Released(was)
        invariant forall j :: 0 <= j < i ==> Chain(order, j) == [] && counts[j] == 0
        modifies this`order, chains, counts, elms`refcount, elms`hashed, elms`freed
      {
        FiniSlot(i, was);
      }
      count := 0;
      if order != [] {
        var e := order[0];
        assert Held(e);
        ChainHolds(order, e.slot, e.elm);
      }
    }
  }

  /** A new element, not hashed, taken out of a new table: the table counts -1 elements, and the element is
      freed while its creator still owns it. */
  method UnhashNew<K>(hashfn: K -> nat, equal: K -> bool) returns (t: Table<K>, he: Elm<K>)
    ensures !t.Valid() && t.count == -1
    ensures !he.Counted() && he.freed == 1 == he.owners
  {
    t := new Table(1);
    he := new Elm(hashfn, equal, true);
    t.Unhash(he, t);
  }

  method HashNew<K>(hashfn: K -> nat, equal: K -> bool, key: K) returns (t: Table<K>, he: Elm<K>)
    ensures fresh(t) && fresh(t.chains) && fresh(t.counts) && fresh(he)
    ensures t.Valid() && t.order == [Entry(he, t.Slot(he.hash))] && he.Counted() && he.hashed && he.owners == 1
  {
    t := new Table(1);
    he := new Elm(hashfn, equal, true);
    var _ := t.Hash(he, key);
  }

  /** An element taken out of another table than its own: both count wrongly. */
  method UnhashElsewhere<K>(hashfn: K -> nat, equal: K -> bool, key: K) returns (home: Table<K>, t: Table<K>)
    ensures !home.Valid() && home.order == [] && home.count == 1
    ensures !t.Valid() && t.order == [] && t.count == -1
  {
    var he;
    home, he := HashNew(hashfn, equal, key);
    t := new Table(1);
    t.Unhash(he, home);
  }
}
