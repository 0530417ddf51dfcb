/** The bounded queue of packets that await a verdict from a user-level daemon:
    `src/stack/delay_queue.c`.

    The code before, inside and after a locked section are separate steps, so a
    packet can be between them: `pending` entries have an id but have not taken the
    lock, `condemned` ones are to be dropped after it, `settling` ones are out of
    the queue but still hold their socket. The logs record where packets ended. */
module DelayQueue {
  import opened Wrappers

  type Sock = nat

  /** Reference counts of sockets; one that is not in the map has none. */
  type Refs = map<Sock, nat>

  function RefCount(refs: Refs, x: Sock): nat {
    if x in refs then refs[x] else 0
  }

  /** `serial` counts the entries ever created; `id` is the 32-bit number the daemon sees. */
  datatype Entry = Entry(serial: nat, id: nat, sk: Option<Sock>)

  datatype State = State(
    maxlen: nat,
    queueId: nat, total: nat, queueDropped: nat, peer: int,
    waiting: seq<Entry>,
    created: nat,
    pending: seq<Entry>, condemned: seq<Entry>, settling: seq<Entry>,
    dropped: seq<Entry>, released: seq<Entry>, lost: seq<Entry>,
    refs: Refs)

  const DELAY_RELEASE := 0
  const DELAY_DROP := 1

  function Initial(maxlen: nat): State {
    State(maxlen, 0, 0, 0, 0, [], 0, [], [], [], [], [], [], map[])
  }

  // ---------- The steps ----------

  function Hold(refs: Refs, sk: Option<Sock>): Refs {
    if sk.Some? then refs[sk.value := RefCount(refs, sk.value) + 1] else refs
  }

  function Put(refs: Refs, sk: Option<Sock>): Refs {
    if sk.Some? && RefCount(refs, sk.value) > 0 then refs[sk.value := RefCount(refs, sk.value) - 1] else refs
  }

  /** The entry is built and its socket held, before the lock is taken. */
  function Allocate(s: State, sk: Option<Sock>): State {
    s.(queueId := (s.queueId + 1) % 0x1_0000_0000, created := s.created + 1,
       pending := s.pending + [Entry(s.created, s.queueId, sk)], refs := Hold(s.refs, sk))
  }

  /** The locked section of delay_queue_skb: queue the entry, or decide to drop it. */
  function Admit(s: State, k: nat, sent: bool): State
    requires k < |s.pending|
  {
    var s' := s.(pending := DropAt(s.pending, k));
    if s.total >= s.maxlen || !sent then s'.(condemned := s.condemned + [s.pending[k]])
    else s'.(waiting := s.waiting + [s.pending[k]], total := s.total + 1)
  }

  /** The 32-bit count of dropped packets after `k` more. */
  function CountDrops(n: nat, k: nat): nat {
    if k == 0 then n else (CountDrops(n, k - 1) + 1) % 0x1_0000_0000
  }

  /** What follows err_out_drop once the lock is released. */
  function Discard(s: State, k: nat): State
    requires k < |s.condemned|
  {
    var de := s.condemned[k];
    s.(condemned := DropAt(s.condemned, k), dropped := s.dropped + [de],
       queueDropped := CountDrops(s.queueDropped, 1), refs := Put(s.refs, de.sk))
  }

  /** Where the first entry with an id is; the length if there is none. */
  function Find(q: seq<Entry>, id: nat): (k: nat)
    ensures k <= |q| && (forall i :: 0 <= i < k ==> q[i].id != id) && (k < |q| ==> q[k].id == id)
  {
    if q == [] || q[0].id == id then 0 else 1 + Find(q[1..], id)
  }

  /** The entry that an id finds. */
  function Named(q: seq<Entry>, id: nat): Option<Entry> {
    var k := Find(q, id);
    if k == |q| then None else Some(q[k])
  }

  datatype Verdict = Busy | NotFound | Dropped | Released | Lost

  /** What a verdict comes to, for the entry it found. */
  function Judge(de: Entry, verdict: int, dead: bool): Verdict {
    if verdict == DELAY_DROP then Dropped
    else if verdict == DELAY_RELEASE then (if de.sk.Some? && dead then Dropped else Released)
    else Lost
  }

  function Outcome(s: State, id: nat, verdict: int, pid: int, dead: bool): Verdict {
    if s.peer != 0 && s.peer != pid then Busy
    else
      var k := Find(s.waiting, id);
      if k == |s.waiting| then NotFound else Judge(s.waiting[k], verdict, dead)
  }

  /** The entry leaves the queue and is accounted for, but still holds its socket. */
  function Take(s: State, k: nat, v: Verdict): State
    requires k < |s.waiting|
  {
    var de := s.waiting[k];
    State(s.maxlen, s.queueId, if s.total > 0 then s.total - 1 else 0,
          if v == Dropped then CountDrops(s.queueDropped, 1) else s.queueDropped, s.peer,
          DropAt(s.waiting, k), s.created, s.pending, s.condemned, s.settling + [de],
          if v == Dropped then s.dropped + [de] else s.dropped,
          if v == Released then s.released + [de] else s.released,
          if v == Lost then s.lost + [de] else s.lost, s.refs)
  }

  /** delay_queue_set_verdict up to the release of the lock. */
  function SetVerdict(s: State, id: nat, verdict: int, pid: int, dead: bool): State {
    if s.peer != 0 && s.peer != pid then s
    else
      var s1 := s.(peer := if s.peer != 0 then s.peer else pid);
      var k := Find(s.waiting, id);
      if k == |s.waiting| then s1 else Take(s1, k, Judge(s.waiting[k], verdict, dead))
  }

  /** The delay_entry_free after the lock is released. */
  function Free(s: State, k: nat): State
    requires k < |s.settling|
  {
    s.(settling := DropAt(s.settling, k), refs := Put(s.refs, s.settling[k].sk))
  }

  /** A purge without a socket takes everything. */
  predicate Purges(sk: Option<Sock>, de: Entry) {
    sk.None? || de.sk == sk
  }

  function Purged(q: seq<Entry>, sk: Option<Sock>): seq<Entry> {
    if q == [] then []
    else Purged(q[..|q| - 1], sk) + if Purges(sk, q[|q| - 1]) then [q[|q| - 1]] else []
  }

  function Kept(q: seq<Entry>, sk: Option<Sock>): seq<Entry> {
    if q == [] then []
    else Kept(q[..|q| - 1], sk) + if Purges(sk, q[|q| - 1]) then [] else [q[|q| - 1]]
  }

  function PutAll(refs: Refs, q: seq<Entry>): Refs {
    if q == [] then refs else Put(PutAll(refs, q[..|q| - 1]), q[|q| - 1].sk)
  }

  /** delay_queue_purge_sock */
  function Purge(s: State, sk: Option<Sock>): State {
    var gone := Purged(s.waiting, sk);
    s.(waiting := Kept(s.waiting, sk), total := if s.total >= |gone| then s.total - |gone| else 0,
       dropped := s.dropped + gone, queueDropped := CountDrops(s.queueDropped, |gone|), refs := PutAll(s.refs, gone))
  }

  /** __delay_queue_reset, when the daemon's socket closes or the module unloads. */
  function Reset(s: State): State {
    Purge(s, None).(peer := 0)
  }

  datatype Event =
    | Allocated(sk: Option<Sock>)
    | Locked(k: nat, sent: bool)
    | Discarded(k: nat)
    | Decided(id: nat, verdict: int, pid: int, dead: bool)
    | Freed(k: nat)
    | SockPurged(sock: Sock)
    | PeerClosed(pid: int)
    | Unloaded

  function Next(s: State, e: Event): State {
    match e
    case Allocated(sk) => Allocate(s, sk)
    case Locked(k, sent) => if k < |s.pending| then Admit(s, k, sent) else s
    case Discarded(k) => if k < |s.condemned| then Discard(s, k) else s
    case Decided(id, verdict, pid, dead) => SetVerdict(s, id, verdict, pid, dead)
    case Freed(k) => if k < |s.settling| then Free(s, k) else s
    case SockPurged(sock) => Purge(s, Some(sock))
    case PeerClosed(pid) => if pid == s.peer then Reset(s) else s
    case Unloaded => Reset(s)
  }

  function Run(s: State, es: seq<Event>): State {
    if es == [] then s else Next(Run(s, es[..|es| - 1]), es[|es| - 1])
  }

  // ---------- The invariant ----------

  /** What entries are counted by: their serial number, or the socket they hold. */
  datatype Key = Serial(n: nat) | Socket(x: Sock)

  predicate Matches(key: Key, de: Entry) {
    match key
    case Serial(n) => de.serial == n
    case Socket(x) => de.sk == Some(x)
  }

  function One(key: Key, de: Entry): nat {
    if Matches(key, de) then 1 else 0
  }

  function Count(q: seq<Entry>, key: Key): nat {
    if q == [] then 0 else Count(q[..|q| - 1], key) + One(key, q[|q| - 1])
  }

  /** In how many places an entry is that has not been freed away, or that ended somewhere. */
  ghost function Places(s: State, n: nat): nat {
    Count(s.pending, Serial(n)) + Count(s.waiting, Serial(n)) + Count(s.condemned, Serial(n)) +
    Count(s.dropped, Serial(n)) + Count(s.released, Serial(n)) + Count(s.lost, Serial(n))
  }

  /** How many entries hold a socket. */
  ghost function Holders(s: State, x: Sock): nat {
    Count(s.pending, Socket(x)) + Count(s.waiting, Socket(x)) +
    Count(s.condemned, Socket(x)) + Count(s.settling, Socket(x))
  }

  ghost predicate IdsOk(q: seq<Entry>) {
    forall i :: 0 <= i < |q| ==> q[i].id == q[i].serial % TWO32
  }

  /** Every entry created is in exactly one place, and no other is anywhere. */
  ghost predicate EachInOnePlace(s: State) {
    forall n: nat {:trigger Places(s, n)} :: Places(s, n) == if n < s.created then 1 else 0
  }

  /** The references held on a socket are the entries that hold it. */
  ghost predicate RefsOk(s: State) {
    forall x: Sock {:trigger Holders(s, x)} :: RefCount(s.refs, x) == Holders(s, x)
  }

  /** The counters count what they are named for, and the queue keeps its bound. */
  ghost predicate CountersOk(s: State) {
    && s.total == |s.waiting| <= s.maxlen
    && s.queueId == s.created % TWO32
    && s.queueDropped == |s.dropped| % TWO32
    && s.created == |s.pending| + |s.waiting| + |s.condemned| + |s.dropped| + |s.released| + |s.lost|
  }

  ghost predicate Inv(s: State) {
    && CountersOk(s) && EachInOnePlace(s) && RefsOk(s)
    && IdsOk(s.pending) && IdsOk(s.waiting)
  }

  lemma {:induction false} LowAdd(n: nat, k: nat)
    ensures CountDrops(n % TWO32, k) == (n + k) % TWO32
  {
    if k > 0 {
      LowAdd(n, k - 1);
      LowOne(n + k - 1);
    }
  }

  lemma LowOne(n: nat)
    ensures (n % 0x1_0000_0000 + 1) % 0x1_0000_0000 == (n + 1) % 0x1_0000_0000
  {
  }

  lemma AllocateCounters(s: State, sk: Option<Sock>)
    requires CountersOk(s)
    ensures CountersOk(Allocate(s, sk))
  {
    LowAdd(s.created, 1);
  }

  lemma DiscardCounters(s: State, k: nat)
    requires CountersOk(s) && k < |s.condemned|
    ensures CountersOk(Discard(s, k))
  {
    LowAdd(|s.dropped|, 1);
  }

  lemma VerdictCounters(s: State, id: nat, verdict: int, pid: int, dead: bool)
    requires CountersOk(s)
    ensures CountersOk(SetVerdict(s, id, verdict, pid, dead))
  {
    LowAdd(|s.dropped|, 1);
  }

  lemma PurgeCounters(s: State, sk: Option<Sock>)
    requires CountersOk(s)
    ensures CountersOk(Purge(s, sk))
  {
    Partition(s.waiting, sk, Serial(0));
    LowAdd(|s.dropped|, |Purged(s.waiting, sk)|);
  }

  lemma Snoc(q: seq<Entry>, de: Entry, key: Key)
    ensures Count(q + [de], key) == Count(q, key) + One(key, de)
  {
    assert (q + [de])[..|q|] == q;
  }

  lemma {:induction false} Concat(a: seq<Entry>, b: seq<Entry>, key: Key)
    ensures Count(a + b, key) == Count(a, key) + Count(b, key)
    decreases |b|
  {
    if b == [] {
      assert a + b == a;
    } else {
      var k := |b| - 1;
      assert (a + b)[..|a + b| - 1] == a + b[..k];
      Concat(a, b[..k], key);
    }
  }

  /** Taking one entry out of a list. */
  lemma TakeOut(q: seq<Entry>, k: nat, key: Key)
    requires k < |q|
    ensures Count(q, key) == Count(DropAt(q, k), key) + One(key, q[k])
  {
    assert q == (q[..k] + [q[k]]) + q[k + 1..];
    Concat(q[..k] + [q[k]], q[k + 1..], key);
    Snoc(q[..k], q[k], key);
    Concat(q[..k], q[k + 1..], key);
  }

  lemma {:induction false} Partition(q: seq<Entry>, sk: Option<Sock>, key: Key)
    ensures Count(q, key) == Count(Purged(q, sk), key) + Count(Kept(q, sk), key)
    ensures |q| == |Purged(q, sk)| + |Kept(q, sk)|
  {
    if q != [] {
      var k := |q| - 1;
      Partition(q[..k], sk, key);
      if Purges(sk, q[k]) {
        Snoc(Purged(q[..k], sk), q[k], key);
        assert Kept(q, sk) == Kept(q[..k], sk);
      } else {
        Snoc(Kept(q[..k], sk), q[k], key);
        assert Purged(q, sk) == Purged(q[..k], sk);
      }
    }
  }

  lemma {:induction false} KeptNone(q: seq<Entry>)
    ensures Kept(q, None) == [] && Purged(q, None) == q
  {
    if q != [] {
      KeptNone(q[..|q| - 1]);
    }
  }

  lemma {:induction false} KeptIn(q: seq<Entry>, sk: Option<Sock>)
    ensures forall x :: x in Kept(q, sk) ==> x in q
  {
    if q != [] {
      KeptIn(q[..|q| - 1], sk);
    }
  }

  lemma {:induction false} PutAllIs(refs: Refs, q: seq<Entry>, x: Sock)
    ensures RefCount(PutAll(refs, q), x) ==
            if RefCount(refs, x) >= Count(q, Socket(x)) then RefCount(refs, x) - Count(q, Socket(x)) else 0
  {
    if q != [] {
      PutAllIs(refs, q[..|q| - 1], x);
    }
  }

  lemma AllocateKeeps(s: State, sk: Option<Sock>)
    requires Inv(s)
    ensures Inv(Allocate(s, sk))
  {
    AllocateCounters(s, sk);
    var de := Entry(s.created, s.queueId, sk);
    var s' := Allocate(s, sk);
    forall n: nat ensures Places(s', n) == if n < s'.created then 1 else 0 {
      Snoc(s.pending, de, Serial(n));
      assert Places(s, n) == if n < s.created then 1 else 0;
    }
    forall x: Sock ensures RefCount(s'.refs, x) == Holders(s', x) {
      Snoc(s.pending, de, Socket(x));
      assert RefCount(s.refs, x) == Holders(s, x);
    }
  }

  lemma AdmitKeeps(s: State, k: nat, sent: bool)
    requires Inv(s) && k < |s.pending|
    ensures Inv(Admit(s, k, sent))
  {
    var s' := Admit(s, k, sent);
    forall n: nat ensures Places(s', n) == if n < s'.created then 1 else 0 {
      AdmitMoves(s, k, sent, Serial(n));
      assert Places(s, n) == if n < s.created then 1 else 0;
    }
    forall x: Sock ensures RefCount(s'.refs, x) == Holders(s', x) {
      AdmitMoves(s, k, sent, Socket(x));
      assert RefCount(s.refs, x) == Holders(s, x);
    }
  }

  /** The entry admitted or condemned is counted once before and after. */
  lemma AdmitMoves(s: State, k: nat, sent: bool, key: Key)
    requires k < |s.pending|
    ensures var s' := Admit(s, k, sent);
            Count(s'.pending, key) + Count(s'.waiting, key) + Count(s'.condemned, key) ==
            Count(s.pending, key) + Count(s.waiting, key) + Count(s.condemned, key)
  {
    TakeOut(s.pending, k, key);
    Snoc(s.waiting, s.pending[k], key);
    Snoc(s.condemned, s.pending[k], key);
  }

  lemma DiscardKeeps(s: State, k: nat)
    requires Inv(s) && k < |s.condemned|
    ensures Inv(Discard(s, k))
  {
    DiscardCounters(s, k);
    var de, s' := s.condemned[k], Discard(s, k);
    forall n: nat ensures Places(s', n) == if n < s'.created then 1 else 0 {
      TakeOut(s.condemned, k, Serial(n));
      Snoc(s.dropped, de, Serial(n));
      assert Places(s, n) == if n < s.created then 1 else 0;
    }
    forall x: Sock ensures RefCount(s'.refs, x) == Holders(s', x) {
      TakeOut(s.condemned, k, Socket(x));
      assert RefCount(s.refs, x) == Holders(s, x);
    }
  }

  lemma VerdictPlaces(s: State, id: nat, verdict: int, pid: int, dead: bool, n: nat)
    requires s.total == |s.waiting|
    ensures Places(SetVerdict(s, id, verdict, pid, dead), n) == Places(s, n)
  {
    var k, s' := Find(s.waiting, id), SetVerdict(s, id, verdict, pid, dead);
    var v := Outcome(s, id, verdict, pid, dead);
    if v != Busy && v != NotFound {
      var de := s.waiting[k];
      TakeOut(s.waiting, k, Serial(n));
      if v == Dropped {
        Snoc(s.dropped, de, Serial(n));
      } else if v == Released {
        Snoc(s.released, de, Serial(n));
      } else {
        Snoc(s.lost, de, Serial(n));
      }
    }
  }

  lemma VerdictHolders(s: State, id: nat, verdict: int, pid: int, dead: bool, x: Sock)
    requires s.total == |s.waiting|
    ensures Holders(SetVerdict(s, id, verdict, pid, dead), x) == Holders(s, x)
  {
    var k := Find(s.waiting, id);
    if k < |s.waiting| {
      TakeOut(s.waiting, k, Socket(x));
      Snoc(s.settling, s.waiting[k], Socket(x));
    }
  }

  lemma VerdictKeeps(s: State, id: nat, verdict: int, pid: int, dead: bool)
    requires Inv(s)
    ensures Inv(SetVerdict(s, id, verdict, pid, dead))
  {
    VerdictCounters(s, id, verdict, pid, dead);
    var s' := SetVerdict(s, id, verdict, pid, dead);
    forall n: nat ensures Places(s', n) == if n < s'.created then 1 else 0 {
      VerdictPlaces(s, id, verdict, pid, dead, n);
      assert Places(s, n) == if n < s.created then 1 else 0;
    }
    forall x: Sock ensures RefCount(s'.refs, x) == Holders(s', x) {
      VerdictHolders(s, id, verdict, pid, dead, x);
      assert RefCount(s.refs, x) == Holders(s, x);
    }
  }

  /** Only the owner changed. */
  lemma SamePlaces(s: State, s': State)
    requires Inv(s) && s' == s.(peer := s'.peer)
    ensures Inv(s')
  {
    forall n: nat ensures Places(s', n) == if n < s'.created then 1 else 0 {
      assert Places(s, n) == if n < s.created then 1 else 0;
    }
    forall x: Sock ensures RefCount(s'.refs, x) == Holders(s', x) {
      assert RefCount(s.refs, x) == Holders(s, x);
    }
  }

  lemma FreeKeeps(s: State, k: nat)
    requires Inv(s) && k < |s.settling|
    ensures Inv(Free(s, k))
  {
    var s' := Free(s, k);
    forall n: nat ensures Places(s', n) == if n < s'.created then 1 else 0 {
      assert Places(s, n) == if n < s.created then 1 else 0;
    }
    forall x: Sock ensures RefCount(s'.refs, x) == Holders(s', x) {
      TakeOut(s.settling, k, Socket(x));
      assert RefCount(s.refs, x) == Holders(s, x);
    }
  }

  lemma PurgePlaces(s: State, sk: Option<Sock>, n: nat)
    ensures Places(Purge(s, sk), n) == Places(s, n)
  {
    Partition(s.waiting, sk, Serial(n));
    Concat(s.dropped, Purged(s.waiting, sk), Serial(n));
  }

  lemma PurgeHolders(s: State, sk: Option<Sock>, x: Sock)
    requires RefCount(s.refs, x) == Holders(s, x)
    ensures RefCount(Purge(s, sk).refs, x) == Holders(Purge(s, sk), x)
  {
    Partition(s.waiting, sk, Socket(x));
    PutAllIs(s.refs, Purged(s.waiting, sk), x);
  }

  lemma PurgeIds(q: seq<Entry>, sk: Option<Sock>)
    requires IdsOk(q)
    ensures IdsOk(Kept(q, sk))
  {
    KeptIn(q, sk);
    forall i | 0 <= i < |Kept(q, sk)| ensures Kept(q, sk)[i].id == Kept(q, sk)[i].serial % TWO32 {
      assert Kept(q, sk)[i] in q;
    }
  }

  lemma PurgeKeeps(s: State, sk: Option<Sock>)
    requires Inv(s)
    ensures Inv(Purge(s, sk))
  {
    PurgeCounters(s, sk);
    var s' := Purge(s, sk);
    forall n: nat ensures Places(s', n) == if n < s'.created then 1 else 0 {
      PurgePlaces(s, sk, n);
      assert Places(s, n) == if n < s.created then 1 else 0;
    }
    forall x: Sock ensures RefCount(s'.refs, x) == Holders(s', x) {
      assert RefCount(s.refs, x) == Holders(s, x);
      PurgeHolders(s, sk, x);
    }
    PurgeIds(s.waiting, sk);
  }

  lemma ResetKeeps(s: State)
    requires Inv(s)
    ensures Inv(Reset(s))
  {
    PurgeKeeps(s, None);
    SamePlaces(Purge(s, None), Reset(s));
  }

  lemma NextKeeps(s: State, e: Event)
    requires Inv(s)
    ensures Inv(Next(s, e))
  {
    match e
    case Allocated(sk) => AllocateKeeps(s, sk);
    case Locked(k, sent) => if k < |s.pending| { AdmitKeeps(s, k, sent); }
    case Discarded(k) => if k < |s.condemned| { DiscardKeeps(s, k); }
    case Decided(id, verdict, pid, dead) => VerdictKeeps(s, id, verdict, pid, dead);
    case Freed(k) => if k < |s.settling| { FreeKeeps(s, k); }
    case SockPurged(sock) => PurgeKeeps(s, Some(sock));
    case PeerClosed(pid) => ResetKeeps(s);
    case Unloaded => ResetKeeps(s);
  }

  /** The invariant holds in every reachable state, in whatever order the steps interleave. */
  lemma {:induction false} RunKeeps(maxlen: nat, es: seq<Event>)
    ensures Inv(Run(Initial(maxlen), es))
  {
    if es != [] {
      RunKeeps(maxlen, es[..|es| - 1]);
      NextKeeps(Run(Initial(maxlen), es[..|es| - 1]), es[|es| - 1]);
    }
  }

  // ---------- The code ----------

  const ENOSPC := -28
  const EHOSTUNREACH := -113
  const EBUSY := -16

  function ReturnCode(v: Verdict): int {
    match v
    case Busy => EBUSY
    case Released => 1
    case _ => 0
  }

  class Queue {
    const maxlen: nat
    var queueId: nat
    var total: nat
    var queueDropped: nat
    var peer: int
    var waiting: seq<Entry>
    var created: nat
    var refs: Refs
    ghost var pending: seq<Entry>
    ghost var condemned: seq<Entry>
    ghost var settling: seq<Entry>
    ghost var dropped: seq<Entry>
    ghost var released: seq<Entry>
    ghost var lost: seq<Entry>

    ghost function View(): State
      reads this
    {
      State(maxlen, queueId, total, queueDropped, peer, waiting, created,
            pending, condemned, settling, dropped, released, lost, refs)
    }

    constructor (maxlen: nat)
      ensures View() == Initial(maxlen) && Inv(View())
    {
      this.maxlen, queueId, total, queueDropped, peer, waiting := maxlen, 0, 0, 0, 0, [];
      created, refs, pending, condemned, settling := 0, map[], [], [], [];
      dropped, released, lost := [], [], [];
      new;
      RunKeeps(maxlen, []);
    }

    /** delay_queue_skb before the lock. */
    method Prepare(sk: Option<Sock>) returns (de: Entry)
      requires Inv(View())
      modifies this
      ensures Inv(View()) && View() == Allocate(old(View()), sk)
      ensures pending == old(pending) + [de] && de == Entry(old(created), old(created) % TWO32, sk)
    {
      AllocateKeeps(View(), sk);
      de := Entry(created, queueId, sk);
      queueId := (queueId + 1) % 0x1_0000_0000;
      created := created + 1;
      if de.sk.Some? {
        refs := Hold(refs, de.sk);
      }
      pending := pending + [de];
    }

    /** delay_queue_skb under the lock; `sent` says whether the daemon could be told. */
    method Enqueue(de: Entry, sent: bool, ghost k: nat) returns (ret: int)
      requires Inv(View()) && k < |pending| && pending[k] == de
      modifies this
      ensures Inv(View()) && View() == Admit(old(View()), k, sent)
      ensures ret == if old(total) >= maxlen then ENOSPC else if !sent then EHOSTUNREACH else 0
      ensures waiting == old(waiting) + if ret == 0 then [de] else []
      ensures condemned == old(condemned) + if ret == 0 then [] else [de]
    {
      AdmitKeeps(View(), k, sent);
      pending := DropAt(pending, k);
      if total >= maxlen {
        condemned := condemned + [de];
        return ENOSPC;
      }
      if !sent {
        condemned := condemned + [de];
        return EHOSTUNREACH;
      }
      waiting := waiting + [de];
      total := total + 1;
      return 0;
    }

    /** delay_queue_skb after the lock, on the way out with an error. */
    method DropCondemned(de: Entry, ghost k: nat)
      requires Inv(View()) && k < |condemned| && condemned[k] == de
      modifies this
      ensures Inv(View()) && View() == Discard(old(View()), k)
      ensures dropped == old(dropped) + [de] && |condemned| == old(|condemned|) - 1
    {
      DiscardKeeps(View(), k);
      condemned := DropAt(condemned, k);
      dropped := dropped + [de];
      PutSock(de);
      queueDropped := CountDrops(queueDropped, 1);
    }

    /** delay_entry_free */
    method PutSock(de: Entry)
      modifies this`refs
      ensures refs == Put(old(refs), de.sk)
    {
      if de.sk.Some? {
        refs := Put(refs, de.sk);
      }
    }

    /** __delay_queue_find */
    method FindEntry(id: nat) returns (k: nat)
      ensures k == Find(waiting, id)
    {
      k := 0;
      while k < |waiting| && waiting[k].id != id
        invariant k <= |waiting| && forall i :: 0 <= i < k ==> waiting[i].id != id
      {
        k := k + 1;
      }
      FindIs(waiting, id, k);
    }

    /** delay_queue_set_verdict, without the free that follows the lock. */
    method Decide(id: nat, verdict: int, pid: int, dead: bool) returns (ret: int, entry: Option<Entry>)
      requires total == |waiting|
      modifies this
      ensures View() == SetVerdict(old(View()), id, verdict, pid, dead)
      ensures ret == ReturnCode(Outcome(old(View()), id, verdict, pid, dead))
      ensures peer == if old(peer) == 0 then pid else old(peer)
      ensures ret == EBUSY <==> old(peer) != 0 && old(peer) != pid
      ensures ret == EBUSY ==> View() == old(View())
      ensures ret == 1 <==> released != old(released)
      ensures ret != EBUSY && ret != 1 ==> ret == 0
      ensures var v := Outcome(old(View()), id, verdict, pid, dead);
              && (entry.None? <==> v == Busy || v == NotFound)
              && (entry.Some? ==> entry == Named(old(waiting), id))
      ensures settling == old(settling) + if entry.Some? then [entry.value] else []
    {
      if peer != 0 {
        if peer != pid {
          return EBUSY, None;
        }
      } else {
        peer := pid;
      }
      var k := FindEntry(id);
      if k == |waiting| {
        return 0, None;
      }
      entry := Some(waiting[k]);
      ret := TakeDecided(k, verdict, dead);
    }

    method TakeDecided(k: nat, verdict: int, dead: bool) returns (ret: int)
      requires k < |waiting| == total
      modifies this`waiting, this`total, this`settling, this`queueDropped, this`dropped, this`released, this`lost
      ensures View() == Take(old(View()), k, Judge(old(waiting)[k], verdict, dead))
      ensures ret == ReturnCode(Judge(old(waiting)[k], verdict, dead))
      ensures settling == old(settling) + [old(waiting)[k]]
    {
      var de := waiting[k];
      waiting := DropAt(waiting, k);
      total := total - 1;
      settling := settling + [de];
      ret := Dispose(de, verdict, dead);
    }

    /** The switch of delay_queue_set_verdict. */
    method Dispose(de: Entry, verdict: int, dead: bool) returns (ret: int)
      modifies this`queueDropped, this`dropped, this`released, this`lost
      ensures var v := Judge(de, verdict, dead);
              && ret == ReturnCode(v)
              && dropped == (if v == Dropped then old(dropped) + [de] else old(dropped))
              && queueDropped == (if v == Dropped then CountDrops(old(queueDropped), 1) else old(queueDropped))
              && released == (if v == Released then old(released) + [de] else old(released))
              && lost == (if v == Lost then old(lost) + [de] else old(lost))
    {
      ret := 0;
      if verdict == DELAY_DROP {
        queueDropped := CountDrops(queueDropped, 1);
        dropped := dropped + [de];
      } else if verdict == DELAY_RELEASE {
        if de.sk.Some? {
          if dead {
            queueDropped := CountDrops(queueDropped, 1);
            dropped := dropped + [de];
          } else {
            released := released + [de];
            ret := 1;
          }
        } else {
          released := released + [de];
          ret := 1;
        }
      } else {
        lost := lost + [de];
      }
    }

    /** The free that follows the lock of delay_queue_set_verdict. */
    method Settle(de: Entry, ghost k: nat)
      requires Inv(View()) && k < |settling| && settling[k] == de
      modifies this
      ensures Inv(View()) && View() == Free(old(View()), k) && |settling| == old(|settling|) - 1
    {
      FreeKeeps(View(), k);
      settling := DropAt(settling, k);
      PutSock(de);
    }

    /** __delay_queue_purge_sock: one pass over the list, unlinking as it goes. */
    method PurgeSock(sk: Option<Sock>)
      requires Inv(View())
      modifies this
      ensures Inv(View()) && View() == Purge(old(View()), sk)
    {
      PurgeKeeps(View(), sk);
      Partition(waiting, sk, Serial(0));
      PurgeLoop(sk);
    }

    method PurgeLoop(sk: Option<Sock>)
      requires total == |waiting|
      modifies this`waiting, this`total, this`dropped, this`refs, this`queueDropped
      ensures var gone := Purged(old(waiting), sk);
              && waiting == Kept(old(waiting), sk) && total == |waiting|
              && dropped == old(dropped) + gone && refs == PutAll(old(refs), gone)
              && queueDropped == CountDrops(old(queueDropped), |gone|)
    {
      var all, pos := waiting, 0;
      for i := 0 to |all|
        invariant pos == |Kept(all[..i], sk)| && total == |waiting|
        invariant Swept(all, i, sk, old(dropped), old(refs), old(queueDropped), waiting, dropped, refs, queueDropped)
      {
        var de := all[i];
        SweepOn(all, i, sk, old(dropped), old(refs), old(queueDropped), waiting, dropped, refs, queueDropped);
        if sk.None? || de.sk == sk {
          UnlinkAt(pos);
        } else {
          pos := pos + 1;
        }
      }
      assert all[..|all|] == all;
    }

    /** Unlink an entry, drop its packet and free it. */
    method UnlinkAt(pos: nat)
      requires pos < |waiting| == total
      modifies this`waiting, this`total, this`dropped, this`refs, this`queueDropped
      ensures var de := old(waiting)[pos];
              && waiting == DropAt(old(waiting), pos) && total == old(total) - 1
              && dropped == old(dropped) + [de] && refs == Put(old(refs), de.sk)
              && queueDropped == CountDrops(old(queueDropped), 1)
    {
      var de := waiting[pos];
      waiting := DropAt(waiting, pos);
      total := total - 1;
      dropped := dropped + [de];
      PutSock(de);
      queueDropped := CountDrops(queueDropped, 1);
    }

    /** __delay_queue_reset */
    method ResetQueue()
      requires Inv(View())
      modifies this
      ensures Inv(View()) && View() == Reset(old(View()))
      ensures peer == 0 && waiting == [] && total == 0 && dropped == old(dropped) + old(waiting)
    {
      ResetKeeps(View());
      KeptNone(waiting);
      PurgeSock(None);
      peer := 0;
    }
  }

  lemma {:induction false} FindIs(q: seq<Entry>, id: nat, k: nat)
    requires k <= |q| && (forall i :: 0 <= i < k ==> q[i].id != id) && (k < |q| ==> q[k].id == id)
    ensures k == Find(q, id)
  {
  }

  /** What a purge has done once it has passed the first `i` entries. */
  ghost predicate Swept(all: seq<Entry>, i: nat, sk: Option<Sock>, d0: seq<Entry>, r0: Refs, c0: nat,
                        waiting: seq<Entry>, dropped: seq<Entry>, refs: Refs, count: nat)
  {
    && i <= |all|
    && var gone := Purged(all[..i], sk);
    && waiting == Kept(all[..i], sk) + all[i..]
    && dropped == d0 + gone && refs == PutAll(r0, gone) && count == CountDrops(c0, |gone|)
  }

  lemma SweepOn(all: seq<Entry>, i: nat, sk: Option<Sock>, d0: seq<Entry>, r0: Refs, c0: nat,
                waiting: seq<Entry>, dropped: seq<Entry>, refs: Refs, count: nat)
    requires i < |all| && Swept(all, i, sk, d0, r0, c0, waiting, dropped, refs, count)
    ensures var de, pos := all[i], |Kept(all[..i], sk)|;
            && pos < |waiting| && waiting[pos] == de
            && if Purges(sk, de) then
                 pos == |Kept(all[..i + 1], sk)| &&
                 Swept(all, i + 1, sk, d0, r0, c0, DropAt(waiting, pos), dropped + [de], Put(refs, de.sk),
                       CountDrops(count, 1))
               else
                 pos + 1 == |Kept(all[..i + 1], sk)| && Swept(all, i + 1, sk, d0, r0, c0, waiting, dropped, refs, count)
  {
    if Purges(sk, all[i]) {
      SweepOut(all, i, sk, d0, r0, c0, waiting, dropped, refs, count);
    } else {
      PurgeOne(all, i, sk, r0);
    }
  }

  lemma SweepOut(all: seq<Entry>, i: nat, sk: Option<Sock>, d0: seq<Entry>, r0: Refs, c0: nat,
                 waiting: seq<Entry>, dropped: seq<Entry>, refs: Refs, count: nat)
    requires i < |all| && Purges(sk, all[i]) && Swept(all, i, sk, d0, r0, c0, waiting, dropped, refs, count)
    ensures var de, pos := all[i], |Kept(all[..i], sk)|;
            && pos < |waiting| && waiting[pos] == de && pos == |Kept(all[..i + 1], sk)|
            && Swept(all, i + 1, sk, d0, r0, c0, DropAt(waiting, pos), dropped + [de], Put(refs, de.sk),
                     CountDrops(count, 1))
  {
    var gone := Purged(all[..i], sk);
    PurgeOne(all, i, sk, r0);
    CountOne(c0, |gone|);
    ConcatAssoc(d0, gone, [all[i]]);
  }

  lemma CountOne(n: nat, k: nat)
    ensures CountDrops(CountDrops(n, k), 1) == CountDrops(n, k + 1)
  {
  }

  lemma PurgeOne(q: seq<Entry>, i: nat, sk: Option<Sock>, refs: Refs)
    requires i < |q|
    ensures var de, kept, gone := q[i], Kept(q[..i], sk), Purged(q[..i], sk);
            && (Purges(sk, de) ==>
                  Purged(q[..i + 1], sk) == gone + [de] && Kept(q[..i + 1], sk) == kept &&
                  DropAt(kept + q[i..], |kept|) == kept + q[i + 1..] &&
                  PutAll(refs, gone + [de]) == Put(PutAll(refs, gone), de.sk))
            && (!Purges(sk, de) ==>
                  Purged(q[..i + 1], sk) == gone && Kept(q[..i + 1], sk) == kept + [de] &&
                  kept + q[i..] == kept + [de] + q[i + 1..])
  {
    assert q[..i + 1][..i] == q[..i];
    PutLast(refs, Purged(q[..i], sk), q[i]);
    PassFirst(Kept(q[..i], sk), q, i);
  }

  lemma PutLast(refs: Refs, gone: seq<Entry>, de: Entry)
    ensures PutAll(refs, gone + [de]) == Put(PutAll(refs, gone), de.sk)
  {
    assert (gone + [de])[..|gone|] == gone;
  }

  lemma PassFirst(kept: seq<Entry>, q: seq<Entry>, i: nat)
    requires i < |q|
    ensures DropAt(kept + q[i..], |kept|) == kept + q[i + 1..]
    ensures kept + q[i..] == kept + [q[i]] + q[i + 1..]
  {
  }
}
