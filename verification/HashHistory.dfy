/** Whole histories of the hash table of `src/common/hashtable.c`: where the references of every
    element are after any of them, and when its freefn has run. */
module HashHistory {
  import opened HashTable

  /** hashelm_hash, hashtable_lookup, hashelm_put by an owner, or hashelm_unhash. */
  datatype Op<!K> =
    | Enter(he: Elm<K>, key: K)
    | Seek(key: K, hashfn: K -> nat)
    | Give(he: Elm<K>)
    | Leave(he: Elm<K>)

  /** The hashed elements, newest first, and how many references to each element have owners. */
  datatype State<!K> = State(order: seq<Entry<K>>, owners: map<Elm<K>, nat>)

  /** Elements as hashelm_init leaves them, each owned by its creator. */
  ghost function Start<K>(pool: set<Elm<K>>): State<K> {
    State([], map x | x in pool :: 1)
  }

  function Found<K>(mask: nat, s: State<K>, key: K, hashfn: K -> nat): Elm?<K> {
    First(Chain(s.order, And(hashfn(key), mask)), key)
  }

  function Owners<K>(s: State<K>, x: Elm<K>): nat {
    if x in s.owners then s.owners[x] else 0
  }

  /** All references to an element. */
  function Refs<K>(s: State<K>, x: Elm<K>): nat {
    Owners(s, x) + if x in Elms(s.order) then 1 else 0
  }

  /** What callers must keep to: to hash or put an element one has to own it, and only hashed elements
      are taken out. */
  predicate Proper<K>(s: State<K>, op: Op<K>) {
    match op
    case Enter(he, _) => Owners(s, he) > 0
    case Seek(_, _) => true
    case Give(he) => Owners(s, he) > 0
    case Leave(he) => he in Elms(s.order)
  }

  function Next<K>(mask: nat, s: State<K>, op: Op<K>): State<K>
    requires Proper(s, op)
  {
    match op
    case Enter(he, key) =>
      if he in Elms(s.order) then s else s.(order := [Entry(he, And(he.hashfn(key), mask))] + s.order)
    case Seek(key, hashfn) =>
      var he := Found(mask, s, key, hashfn);
      if he == null then s else s.(owners := s.owners[he := Owners(s, he) + 1])
    case Give(he) => s.(owners := s.owners[he := Owners(s, he) - 1])
    case Leave(he) => s.(order := Unhashed(s.order, he))
  }

  /** Every operation is proper where it happens. */
  predicate ProperRun<K>(mask: nat, s: State<K>, ops: seq<Op<K>>)
    decreases |ops|
  {
    ops == [] || (Proper(s, ops[0]) && ProperRun(mask, Next(mask, s, ops[0]), ops[1..]))
  }

  function After<K>(mask: nat, s: State<K>, ops: seq<Op<K>>): State<K>
    requires ProperRun(mask, s, ops)
    decreases |ops|
  {
    if ops == [] then s else After(mask, Next(mask, s, ops[0]), ops[1..])
  }

  /** Each element is hashed once, and known. */
  ghost predicate Inv<K>(s: State<K>) {
    Unique(s.order) && forall e :: e in s.order ==> e.elm in s.owners
  }

  lemma ElmsHold<K>(order: seq<Entry<K>>, x: Elm<K>)
    ensures x in Elms(order) <==> exists e :: e in order && e.elm == x
  {
    if x in Elms(order) {
      var j :| 0 <= j < |order| && Elms(order)[j] == x;
      assert order[j] in order;
    }
    if e :| e in order && e.elm == x {
      var j :| 0 <= j < |order| && order[j] == e;
      assert Elms(order)[j] == x;
    }
  }

  lemma ElmsWithout<K>(order: seq<Entry<K>>, he: Elm<K>, x: Elm<K>)
    requires Unique(order)
    ensures x in Elms(Unhashed(order, he)) <==> x in Elms(order) && x != he
  {
    ElmsHold(order, x);
    ElmsHold(Unhashed(order, he), x);
    forall e ensures e in Unhashed(order, he) <==> e in order && e.elm != he {
      UnhashedHolds(order, he, e);
    }
  }

  /** What a lookup finds is hashed and equals the key. */
  lemma FoundIsHashed<K>(mask: nat, s: State<K>, key: K, hashfn: K -> nat)
    ensures var he := Found(mask, s, key, hashfn); he != null ==> he in Elms(s.order) && he.equal(key)
  {
    var he, i := Found(mask, s, key, hashfn), And(hashfn(key), mask);
    if he != null {
      ChainHolds(s.order, i, he);
      ElmsHold(s.order, he);
    }
  }

  lemma NextKeeps<K>(mask: nat, s: State<K>, op: Op<K>)
    requires Inv(s) && Proper(s, op)
    ensures Inv(Next(mask, s, op)) && Next(mask, s, op).owners.Keys == s.owners.Keys
  {
    match op
    case Enter(he, key) =>
      if he !in Elms(s.order) {
        forall e | e in s.order ensures e.elm != he {
          ElmsHold(s.order, he);
        }
      }
    case Seek(key, hashfn) =>
      FoundIsHashed(mask, s, key, hashfn);
      var he := Found(mask, s, key, hashfn);
      if he != null {
        ElmsHold(s.order, he);
      }
    case Give(he) =>
    case Leave(he) =>
      ElmsHold(s.order, he);
      var e :| e in s.order && e.elm == he;
      assert e == Entry(he, e.slot);
      UnhashedIs(s.order, he, e.slot);
      forall d | d in Unhashed(s.order, he) ensures d in s.order {
        UnhashedHolds(s.order, he, d);
      }
  }

  /** An element that is hashed is found right away under its key, and has no reference less; taken out, it
      is not found again before it is hashed again. */
  lemma EnterFinds<K>(mask: nat, s: State<K>, he: Elm<K>, key: K)
    requires Proper(s, Enter(he, key)) && he !in Elms(s.order) && he.equal(key)
    ensures Found(mask, Next(mask, s, Enter(he, key)), key, he.hashfn) == he
    ensures Refs(Next(mask, s, Enter(he, key)), he) == Refs(s, he) + 1
  {
    var e := Entry(he, And(he.hashfn(key), mask));
    ChainCons(e, s.order, e.slot);
    FirstCons(he, Chain(s.order, e.slot), key);
  }

  lemma LeaveHides<K>(mask: nat, s: State<K>, he: Elm<K>, key: K, hashfn: K -> nat)
    requires Inv(s) && Proper(s, Leave(he))
    ensures Found(mask, Next(mask, s, Leave(he)), key, hashfn) != he
    ensures Refs(Next(mask, s, Leave(he)), he) == Refs(s, he) - 1
  {
    ElmsWithout(s.order, he, he);
    FoundIsHashed(mask, Next(mask, s, Leave(he)), key, hashfn);
  }

  /** How often a run's lookups hand an element out, and how often its owners put it. */
  function Handed<K>(mask: nat, s: State<K>, ops: seq<Op<K>>, x: Elm<K>): nat
    requires ProperRun(mask, s, ops)
    decreases |ops|
  {
    if ops == [] then 0
    else (if ops[0].Seek? && Found(mask, s, ops[0].key, ops[0].hashfn) == x then 1 else 0)
         + Handed(mask, Next(mask, s, ops[0]), ops[1..], x)
  }

  function Given<K>(ops: seq<Op<K>>, x: Elm<K>): nat {
    if ops == [] then 0 else (if ops[0] == Give(x) then 1 else 0) + Given(ops[1..], x)
  }

  /** Over every run, the references that owners hold are those they had and were handed, less those
      they put. */
  lemma {:induction false} RunConserves<K>(mask: nat, s: State<K>, ops: seq<Op<K>>, x: Elm<K>)
    requires ProperRun(mask, s, ops)
    ensures Owners(After(mask, s, ops), x) + Given(ops, x) == Owners(s, x) + Handed(mask, s, ops, x)
    decreases |ops|
  {
    if ops != [] {
      RunConserves(mask, Next(mask, s, ops[0]), ops[1..], x);
    }
  }

  /** An operation names an element, or finds it. */
  predicate Touches<K>(mask: nat, s: State<K>, op: Op<K>, x: Elm<K>) {
    match op
    case Enter(he, _) => he == x
    case Seek(key, hashfn) => Found(mask, s, key, hashfn) == x
    case Give(he) => he == x
    case Leave(he) => he == x
  }

  lemma DeadStep<K>(mask: nat, s: State<K>, op: Op<K>, x: Elm<K>)
    requires Inv(s) && Proper(s, op) && Refs(s, x) == 0
    ensures !Touches(mask, s, op, x) && Refs(Next(mask, s, op), x) == 0
  {
    match op
    case Enter(he, key) =>
      if he !in Elms(s.order) {
        ChainCons(Entry(he, And(he.hashfn(key), mask)), s.order, 0);
      }
    case Seek(key, hashfn) =>
      FoundIsHashed(mask, s, key, hashfn);
    case Give(he) =>
    case Leave(he) =>
      ElmsWithout(s.order, he, x);
  }

  /** No operation of a run touches an element after its last reference went: not even a lookup
      finds it. */
  lemma {:induction false} DeadStays<K>(mask: nat, s: State<K>, ops: seq<Op<K>>, k: nat, x: Elm<K>)
    requires Inv(s) && ProperRun(mask, s, ops) && k <= |ops| && Refs(s, x) == 0
    ensures ProperRun(mask, s, ops[..k]) && Refs(After(mask, s, ops[..k]), x) == 0
    ensures k < |ops| ==> !Touches(mask, After(mask, s, ops[..k]), ops[k], x)
    decreases k
  {
    if k > 0 {
      NextKeeps(mask, s, ops[0]);
      DeadStep(mask, s, ops[0], x);
      assert ops[..k][1..] == ops[1..][..k - 1];
      DeadStays(mask, Next(mask, s, ops[0]), ops[1..], k - 1, x);
    } else if ops != [] {
      DeadStep(mask, s, ops[0], x);
    }
  }

  // ---------- The table follows the history ----------

  ghost predicate Agrees<K>(t: Table<K>, pool: set<Elm<K>>, s: State<K>)
    reads t, t.chains, t.counts, t.elms, pool
  {
    && t.Valid() && t.order == s.order && t.elms <= pool && s.owners.Keys == pool
    && forall x :: x in pool ==> x.Counted() && x.owners == s.owners[x] && (x.hashed <==> x in Elms(s.order))
  }

  method PerformEnter<K>(t: Table<K>, he: Elm<K>, key: K, ghost pool: set<Elm<K>>, ghost s: State<K>)
    requires Agrees(t, pool, s) && Owners(s, he) > 0
    modifies t, t.chains, t.counts, pool
    ensures Agrees(t, pool, Next(t.mask, s, Enter(he, key))) && t.elms <= pool
  {
    ChainCons(Entry(he, t.Slot(he.hashfn(key))), t.order, 0);
    var _ := t.Hash(he, key);
  }

  /** What a lookup does to the state. */
  lemma SeekIs<K>(mask: nat, s: State<K>, key: K, hashfn: K -> nat, pool: set<Elm<K>>) returns (now: State<K>)
    requires Inv(s) && s.owners.Keys == pool
    ensures now == Next(mask, s, Seek(key, hashfn)) && now.order == s.order && now.owners.Keys == pool
    ensures forall x :: x in pool ==>
              now.owners[x] == s.owners[x] + if x == Found(mask, s, key, hashfn) then 1 else 0
  {
    now := Next(mask, s, Seek(key, hashfn));
    NextKeeps(mask, s, Seek(key, hashfn));
  }

  method PerformSeek<K>(t: Table<K>, key: K, hashfn: K -> nat, ghost pool: set<Elm<K>>, ghost s: State<K>)
    requires Agrees(t, pool, s) && Inv(s)
    modifies pool
    ensures Agrees(t, pool, Next(t.mask, s, Seek(key, hashfn)))
  {
    ghost var now := SeekIs(t.mask, s, key, hashfn, pool);
    var he := t.Lookup(key, hashfn);
    forall x | x in pool ensures x.Counted() && x.owners == now.owners[x] {
      assert x in t.elms || x != he;
    }
  }

  method PerformGive<K>(t: Table<K>, he: Elm<K>, ghost pool: set<Elm<K>>, ghost s: State<K>)
    requires Agrees(t, pool, s) && Owners(s, he) > 0
    modifies pool
    ensures Agrees(t, pool, Next(t.mask, s, Give(he)))
  {
    he.Put();
  }

  lemma InItsSlot<K>(t: Table<K>, pool: set<Elm<K>>, s: State<K>, he: Elm<K>)
    requires Agrees(t, pool, s) && he in Elms(s.order)
    ensures he in pool && Entry(he, t.Slot(he.hash)) in t.order
  {
    ElmsHold(s.order, he);
    var e :| e in t.order && e.elm == he;
    assert t.Held(e);
  }

  method PerformLeave<K>(t: Table<K>, he: Elm<K>, ghost pool: set<Elm<K>>, ghost s: State<K>)
    requires Agrees(t, pool, s) && he in Elms(s.order)
    modifies t, t.chains, t.counts, pool
    ensures Agrees(t, pool, Next(t.mask, s, Leave(he)))
  {
    ghost var now := Next(t.mask, s, Leave(he));
    InItsSlot(t, pool, s, he);
    t.Unhash(he, t);
    forall x | x in pool ensures x.Counted() && (x.hashed <==> x in Elms(now.order)) {
      ElmsWithout(s.order, he, x);
    }
  }

  method Perform<K>(t: Table<K>, op: Op<K>, ghost pool: set<Elm<K>>, ghost s: State<K>)
    requires Agrees(t, pool, s) && Inv(s) && Proper(s, op)
    modifies t, t.chains, t.counts, pool
    ensures Agrees(t, pool, Next(t.mask, s, op))
  {
    match op
    case Enter(he, key) => PerformEnter(t, he, key, pool, s);
    case Seek(key, hashfn) => PerformSeek(t, key, hashfn, pool, s);
    case Give(he) => PerformGive(t, he, pool, s);
    case Leave(he) => PerformLeave(t, he, pool, s);
  }

  lemma {:induction false} RunSplits<K>(mask: nat, s: State<K>, ops: seq<Op<K>>, k: nat)
    requires ProperRun(mask, s, ops) && k < |ops|
    ensures ProperRun(mask, s, ops[..k]) && ProperRun(mask, s, ops[..k + 1])
    ensures var now := After(mask, s, ops[..k]);
            Proper(now, ops[k]) && After(mask, s, ops[..k + 1]) == Next(mask, now, ops[k])
    decreases k
  {
    var rest := ops[1..];
    if k > 0 {
      assert ops[..k][1..] == rest[..k - 1] && ops[..k + 1][1..] == rest[..k];
      RunSplits(mask, Next(mask, s, ops[0]), rest, k - 1);
    } else {
      assert ops[..1][1..] == [];
    }
  }

  /** The table has followed a run from `s` to its end. */
  ghost predicate Stands<K>(t: Table<K>, pool: set<Elm<K>>, s: State<K>, ops: seq<Op<K>>)
    reads t, t.chains, t.counts, t.elms, pool
  {
    && ProperRun(t.mask, s, ops) && Inv(After(t.mask, s, ops))
    && Agrees(t, pool, After(t.mask, s, ops))
  }

  method Extend<K>(t: Table<K>, ghost pool: set<Elm<K>>, ghost s: State<K>, ops: seq<Op<K>>, k: nat)
    requires ProperRun(t.mask, s, ops) && k < |ops| && Stands(t, pool, s, ops[..k])
    modifies t, t.chains, t.counts, pool
    ensures Stands(t, pool, s, ops[..k + 1])
  {
    ghost var now := After(t.mask, s, ops[..k]);
    RunSplits(t.mask, s, ops, k);
    NextKeeps(t.mask, now, ops[k]);
    Perform(t, ops[k], pool, now);
  }

  /** Any history on a new table: the table holds what the history says, and every element has exactly the
      references that owners and the table hold; freefn has run, once, exactly for those without any. */
  method Replay<K>(size: nat, ghost pool: set<Elm<K>>, ops: seq<Op<K>>) returns (t: Table<K>)
    requires size > 0 && ProperRun(size - 1, Start(pool), ops)
    requires forall x :: x in pool ==> x.Counted() && x.owners == 1 && !x.hashed
    modifies pool
    ensures t.Valid() && t.mask == size - 1
    ensures var now := After(size - 1, Start(pool), ops);
            && t.order == now.order
            && forall x :: x in pool ==>
                 && x.refcount == Refs(now, x) && (x.hashed <==> x in Elms(t.order))
                 && x.freed == if Refs(now, x) == 0 && x.hasFreefn then 1 else 0
  {
    t := new Table(size);
    ghost var s := Start(pool);
    for k := 0 to |ops|
      invariant fresh(t) && fresh(t.chains) && fresh(t.counts) && t.mask == size - 1
      invariant Stands(t, pool, s, ops[..k])
    {
      Extend(t, pool, s, ops, k);
    }
    assert ops[..|ops|] == ops;
  }
}
