/** What holds of every step and every run of the delay queue: where packets are and end, who may decide
    about them, and in which order they wait. */
module DelayRuns {
  import opened Wrappers
  import opened DelayQueue

  // ---------- Consequences ----------

  lemma {:induction false} CountMember(q: seq<Entry>, i: nat, key: Key)
    requires i < |q| && Matches(key, q[i])
    ensures Count(q, key) >= 1
  {
    if i < |q| - 1 {
      CountMember(q[..|q| - 1], i, key);
    }
  }

  lemma {:induction false} CountTwice(q: seq<Entry>, i: nat, j: nat, key: Key)
    requires i < j < |q| && Matches(key, q[i]) && Matches(key, q[j])
    ensures Count(q, key) >= 2
  {
    if j < |q| - 1 {
      CountTwice(q[..|q| - 1], i, j, key);
    } else {
      CountMember(q[..|q| - 1], i, key);
    }
  }

  /** In every reachable state: the bound, the counts, and no packet that is in two places. */
  lemma Conservation(maxlen: nat, es: seq<Event>)
    ensures var s := Run(Initial(maxlen), es);
            && s.total == |s.waiting| <= maxlen
            && s.created == |s.waiting| + |s.dropped| + |s.released| + |s.lost| + |s.pending| + |s.condemned|
            && s.queueDropped == |s.dropped| % TWO32
            && (forall x: Sock :: RefCount(s.refs, x) == Holders(s, x))
            && (forall i, j :: 0 <= i < |s.dropped| && 0 <= j < |s.released| ==>
                  s.dropped[i].serial != s.released[j].serial)
  {
    RunKeeps(maxlen, es);
    RunMaxlen(maxlen, es);
    var s := Run(Initial(maxlen), es);
    forall i, j | 0 <= i < |s.dropped| && 0 <= j < |s.released|
      ensures s.dropped[i].serial != s.released[j].serial
    {
      var n := s.dropped[i].serial;
      assert Places(s, n) <= 1;
      CountMember(s.dropped, i, Serial(n));
      if s.released[j].serial == n {
        CountMember(s.released, j, Serial(n));
      }
    }
    forall x: Sock ensures RefCount(s.refs, x) == Holders(s, x) {
    }
  }

  lemma {:induction false} RunMaxlen(maxlen: nat, es: seq<Event>)
    ensures Run(Initial(maxlen), es).maxlen == maxlen
  {
    if es != [] {
      RunMaxlen(maxlen, es[..|es| - 1]);
    }
  }

  /** A verdict that the enumeration does not have. */
  predicate Unknown(verdict: int) {
    verdict != DELAY_DROP && verdict != DELAY_RELEASE
  }

  /** A packet is neither dropped nor released exactly when an unknown verdict names a waiting packet
      and comes from the owner, or from anyone while there is none. */
  lemma LostOnlyBy(s: State, e: Event)
    ensures Next(s, e).lost != s.lost <==>
            && e.Decided? && Unknown(e.verdict) && (s.peer == 0 || s.peer == e.pid)
            && exists i :: 0 <= i < |s.waiting| && s.waiting[i].id == e.id
  {
    if e.Decided? {
      var k := Find(s.waiting, e.id);
      if k < |s.waiting| && (s.peer == 0 || s.peer == e.pid) && Unknown(e.verdict) {
        assert |Next(s, e).lost| == |s.lost| + 1 && s.waiting[k].id == e.id;
      }
    }
  }

  /** A run that loses its one packet. */
  lemma LosesOne()
    ensures var s := Run(Initial(1), [Allocated(None), Locked(0, true), Decided(0, 2, 7, false), Freed(0)]);
            s.created == 1 && |s.lost| == 1 && s.dropped == [] && s.released == [] && s.waiting == []
  {
    var e0, e1, e2, e3 := Allocated(None), Locked(0, true), Decided(0, 2, 7, false), Freed(0);
    assert [e0, e1, e2, e3][..3] == [e0, e1, e2] && [e0, e1, e2][..2] == [e0, e1] && [e0, e1][..1] == [e0];
    var s0 := Initial(1);
    var de := Entry(0, 0, None);
    var s1 := Next(s0, e0);
    assert Run(s0, [e0]) == s1 && s1.pending == [de];
    var s2 := Next(s1, e1);
    assert Run(s0, [e0, e1]) == s2 && s2.waiting == [de];
    var s3 := Next(s2, e2);
    assert Run(s0, [e0, e1, e2]) == s3 && Find(s2.waiting, 0) == 0 && s3.lost == [de];
  }

  lemma {:induction false} NothingLost(maxlen: nat, es: seq<Event>)
    requires forall i :: 0 <= i < |es| && es[i].Decided? ==> !Unknown(es[i].verdict)
    ensures Run(Initial(maxlen), es).lost == []
  {
    if es != [] {
      var k := |es| - 1;
      NothingLost(maxlen, es[..k]);
      LostOnlyBy(Run(Initial(maxlen), es[..k]), es[k]);
    }
  }

  // ---------- The way in, and the way out ----------

  /** How packets move between the locked sections: a new one gets the next id, the lock lets it wait exactly
      when there is room and the daemon was told, and a refused one ends among the dropped. */
  lemma PacketMoves(s: State, e: Event)
    requires Inv(s)
    ensures var t := Next(s, e);
            match e
            case Allocated(sk) =>
              t.pending == s.pending + [Entry(s.created, s.created % TWO32, sk)] && t.waiting == s.waiting
            case Locked(k, sent) =>
              k < |s.pending| ==>
                && t.pending == s.pending[..k] + s.pending[k + 1..]
                && if |s.waiting| < s.maxlen && sent
                   then t.waiting == s.waiting + [s.pending[k]] && t.condemned == s.condemned
                   else t.waiting == s.waiting && t.condemned == s.condemned + [s.pending[k]]
            case Discarded(k) =>
              k < |s.condemned| ==>
                t.condemned == s.condemned[..k] + s.condemned[k + 1..] && t.dropped == s.dropped + [s.condemned[k]]
            case Freed(k) =>
              k < |s.settling| ==> t.settling == s.settling[..k] + s.settling[k + 1..]
            case _ => true
  {
  }

  function Times(n: nat, e: Event): seq<Event> {
    if n == 0 then [] else Times(n - 1, e) + [e]
  }

  lemma {:induction false} DiscardMany(s: State, n: nat)
    requires Inv(s) && n <= |s.condemned|
    ensures var t := Run(s, Times(n, Discarded(0)));
            && Inv(t) && t.condemned == s.condemned[n..] && t.dropped == s.dropped + s.condemned[..n]
            && t.settling == s.settling && t.waiting == s.waiting && t.pending == s.pending
  {
    if n > 0 {
      DiscardMany(s, n - 1);
      RunSnoc(s, Times(n - 1, Discarded(0)), Discarded(0));
      var u := Run(s, Times(n - 1, Discarded(0)));
      NextKeeps(u, Discarded(0));
      PacketMoves(u, Discarded(0));
      FirstOver(s.dropped, s.condemned, n);
    }
  }

  lemma FirstOver(d: seq<Entry>, c: seq<Entry>, n: nat)
    requires 0 < n <= |c|
    ensures c[n - 1..][..0] + c[n - 1..][1..] == c[n..]
    ensures d + c[..n - 1] + [c[n - 1..][0]] == d + c[..n]
  {
  }

  lemma {:induction false} FreeMany(s: State, n: nat)
    requires Inv(s) && n <= |s.settling|
    ensures var t := Run(s, Times(n, Freed(0)));
            && Inv(t) && t.settling == s.settling[n..]
            && t.dropped == s.dropped && t.condemned == s.condemned && t.waiting == s.waiting && t.pending == s.pending
  {
    if n > 0 {
      FreeMany(s, n - 1);
      RunSnoc(s, Times(n - 1, Freed(0)), Freed(0));
      var u := Run(s, Times(n - 1, Freed(0)));
      NextKeeps(u, Freed(0));
      PacketMoves(u, Freed(0));
    }
  }

  /** Once what was begun is finished, all refused packets are dropped, in the order in which they were refused,
      and only entries on their way in or waiting hold their sockets. */
  lemma Finishes(s: State, x: Sock)
    requires Inv(s)
    ensures var t := Run(Run(s, Times(|s.condemned|, Discarded(0))), Times(|s.settling|, Freed(0)));
            && t.condemned == [] && t.settling == [] && t.dropped == s.dropped + s.condemned && t.waiting == s.waiting
            && RefCount(t.refs, x) == Count(s.pending, Socket(x)) + Count(s.waiting, Socket(x))
  {
    DiscardMany(s, |s.condemned|);
    var u := Run(s, Times(|s.condemned|, Discarded(0)));
    FreeMany(u, |u.settling|);
    var t := Run(u, Times(|u.settling|, Freed(0)));
    assert RefCount(t.refs, x) == Holders(t, x);
  }

  // ---------- The owner ----------

  predicate Ends(e: Event, pid: int) {
    e == PeerClosed(pid) || e == Unloaded
  }

  predicate Foreign(e: Event, pid: int) {
    e.Decided? && e.pid != pid
  }

  function OwnEvents(es: seq<Event>, pid: int): seq<Event> {
    if es == [] then []
    else OwnEvents(es[..|es| - 1], pid) + if Foreign(es[|es| - 1], pid) then [] else [es[|es| - 1]]
  }

  /** Who owns the queue after an event: the first to send a verdict while nobody does, nobody after a reset,
      and otherwise the same as before. */
  lemma OwnerAfter(s: State, e: Event)
    ensures Next(s, e).peer ==
            if e.Decided? && s.peer == 0 then e.pid
            else if e == Unloaded || e == PeerClosed(s.peer) then 0
            else s.peer
  {
  }

  /** A pid owns the queue after a run exactly when it sent a verdict while nobody did, and no reset that
      concerns it came since. */
  lemma {:induction false} OwnerSince(maxlen: nat, es: seq<Event>, pid: int)
    requires pid != 0
    ensures Run(Initial(maxlen), es).peer == pid <==> exists i :: TakesOver(maxlen, es, i, pid)
  {
    if es != [] {
      var k := |es| - 1;
      var rest := es[..k];
      OwnerSince(maxlen, rest, pid);
      OwnerAfter(Run(Initial(maxlen), rest), es[k]);
      forall i | 0 <= i < k
        ensures TakesOver(maxlen, es, i, pid) <==> TakesOver(maxlen, rest, i, pid) && !Ends(es[k], pid)
      {
        TakesOverOn(maxlen, es, i, pid);
      }
      if Run(Initial(maxlen), rest).peer == pid && !Ends(es[k], pid) {
        var i :| TakesOver(maxlen, rest, i, pid);
        assert TakesOver(maxlen, es, i, pid);
      } else if Run(Initial(maxlen), es).peer == pid {
        assert TakesOver(maxlen, es, k, pid);
      }
    }
  }

  ghost predicate TakesOver(maxlen: nat, es: seq<Event>, i: int, pid: int) {
    && 0 <= i < |es| && es[i].Decided? && es[i].pid == pid
    && Run(Initial(maxlen), es[..i]).peer == 0
    && forall j :: i < j < |es| ==> !Ends(es[j], pid)
  }

  lemma TakesOverOn(maxlen: nat, es: seq<Event>, i: nat, pid: int)
    requires i < |es| - 1
    ensures TakesOver(maxlen, es, i, pid) <==> TakesOver(maxlen, es[..|es| - 1], i, pid) && !Ends(es[|es| - 1], pid)
  {
    var rest := es[..|es| - 1];
    assert rest[..i] == es[..i];
    if TakesOver(maxlen, rest, i, pid) && !Ends(es[|es| - 1], pid) {
      forall j | i < j < |es| ensures !Ends(es[j], pid) {
        assert j < |rest| ==> es[j] == rest[j];
      }
    }
  }

  /** The first verdict of a nonzero pid makes it the owner: from then on until a reset every other pid's
      verdict is turned down and changes nothing. */
  lemma FirstDecides(s: State, first: Event, es: seq<Event>, e: Event)
    requires s.peer == 0 && first.Decided? && first.pid != 0
    requires forall i :: 0 <= i < |es| ==> !Ends(es[i], first.pid)
    requires e.Decided? && e.pid != first.pid
    ensures var now := Run(Next(s, first), es);
            && now.peer == first.pid && Next(now, e) == now
            && ReturnCode(Outcome(now, e.id, e.verdict, e.pid, e.dead)) == EBUSY
  {
    OwnerAfter(s, first);
    OwnerAlone(Next(s, first), es);
    OwnedStep(Run(Next(s, first), es), e);
  }

  /** After a reset the queue is empty, and the next verdict is turned down from nobody. */
  lemma ResetFrees(s: State, e: Event, next: Event)
    requires Ends(e, s.peer) && next.Decided?
    ensures var now := Next(s, e);
            && now.waiting == [] && now.peer == 0
            && ReturnCode(Outcome(now, next.id, next.verdict, next.pid, next.dead)) != EBUSY
            && Next(now, next).peer == next.pid
  {
    OwnerAfter(s, e);
    KeptNone(s.waiting);
  }

  /** Once a nonzero pid owns the queue it keeps it until a reset, and until then the verdicts
      of all other pids might as well not have been sent. */
  lemma {:induction false} OwnerAlone(s: State, es: seq<Event>)
    requires s.peer != 0
    requires forall i :: 0 <= i < |es| ==> !Ends(es[i], s.peer)
    ensures Run(s, es).peer == s.peer
    ensures Run(s, es) == Run(s, OwnEvents(es, s.peer))
  {
    if es != [] {
      var k := |es| - 1;
      OwnerAlone(s, es[..k]);
      var before, own := Run(s, es[..k]), OwnEvents(es[..k], s.peer);
      assert Run(s, es) == Next(before, es[k]);
      OwnedStep(before, es[k]);
      if Foreign(es[k], s.peer) {
        assert OwnEvents(es, s.peer) == own;
      } else {
        RunSnoc(s, own, es[k]);
      }
    }
  }

  /** One step while the queue is owned. */
  lemma OwnedStep(s: State, e: Event)
    requires s.peer != 0 && !Ends(e, s.peer)
    ensures Next(s, e).peer == s.peer && (Foreign(e, s.peer) ==> Next(s, e) == s)
  {
  }

  lemma RunSnoc(s: State, es: seq<Event>, e: Event)
    ensures Run(s, es + [e]) == Next(Run(s, es), e)
  {
    assert (es + [e])[..|es|] == es;
  }

  // ---------- How a waiting packet leaves ----------

  /** No waiting entry is older than 2^32 allocations. */
  ghost predicate Young(s: State) {
    forall i :: 0 <= i < |s.waiting| ==> s.created <= s.waiting[i].serial + TWO32
  }

  lemma SerialBound(s: State, i: nat)
    requires Inv(s) && i < |s.waiting|
    ensures s.waiting[i].serial < s.created
  {
    var n := s.waiting[i].serial;
    CountMember(s.waiting, i, Serial(n));
    assert Places(s, n) == if n < s.created then 1 else 0;
  }

  lemma LowEqual(a: nat, b: nat, c: nat)
    requires a < c <= a + TWO32 && b < c <= b + TWO32 && a % TWO32 == b % TWO32
    ensures a == b
  {
    assert (a - b) % 0x1_0000_0000 == 0;
  }

  /** No entry waits twice. */
  lemma EntriesDistinct(s: State, i: nat, j: nat)
    requires Inv(s) && i < |s.waiting| && j < |s.waiting| && s.waiting[i].serial == s.waiting[j].serial
    ensures i == j
  {
    var a := s.waiting[i].serial;
    assert Places(s, a) <= 1;
    if i != j {
      CountTwice(s.waiting, if i < j then i else j, if i < j then j else i, Serial(a));
    }
  }

  /** Then an id names at most one waiting entry. */
  lemma IdsDistinct(s: State, i: nat, j: nat)
    requires Inv(s) && Young(s) && i < |s.waiting| && j < |s.waiting| && s.waiting[i].id == s.waiting[j].id
    ensures i == j
  {
    SerialBound(s, i);
    SerialBound(s, j);
    LowEqual(s.waiting[i].serial, s.waiting[j].serial, s.created);
    EntriesDistinct(s, i, j);
  }

  /** An id finds a waiting entry exactly when the entry has it and no older one does, which none does
      within 2^32 allocations. */
  lemma IdFinds(s: State, id: nat, j: nat)
    requires Inv(s) && j < |s.waiting|
    ensures Named(s.waiting, id) == Some(s.waiting[j]) <==> Find(s.waiting, id) == j
    ensures Named(s.waiting, id) == Some(s.waiting[j]) <==>
            s.waiting[j].id == id && forall i :: 0 <= i < j ==> s.waiting[i].id != id
    ensures Young(s) ==> (Named(s.waiting, id) == Some(s.waiting[j]) <==> s.waiting[j].id == id)
  {
    var k := Find(s.waiting, id);
    if k < |s.waiting| && s.waiting[k] == s.waiting[j] {
      EntriesDistinct(s, k, j);
    }
    if Young(s) && s.waiting[j].id == id {
      IdsDistinct(s, k, j);
    }
  }

  /** An event that takes a given waiting entry out. */
  predicate Removes(s: State, e: Event, de: Entry) {
    match e
    case Decided(id, _, pid, _) => Named(s.waiting, id) == Some(de) && (s.peer == 0 || s.peer == pid)
    case SockPurged(sock) => de.sk == Some(sock)
    case PeerClosed(pid) => pid == s.peer
    case Unloaded => true
    case _ => false
  }

  lemma {:induction false} KeptIff(q: seq<Entry>, sk: Option<Sock>, de: Entry)
    ensures de in Kept(q, sk) <==> de in q && !Purges(sk, de)
  {
    if q != [] {
      KeptIff(q[..|q| - 1], sk, de);
      assert de in q <==> de in q[..|q| - 1] || de == q[|q| - 1];
    }
  }

  lemma WithoutMembers(q: seq<Entry>, k: nat, j: nat)
    requires k < |q| && j < |q| && forall i :: 0 <= i < |q| && q[i] == q[j] ==> i == j
    ensures q[j] in DropAt(q, k) <==> j != k
  {
    var w := DropAt(q, k);
    if j != k {
      assert w[if j < k then j else j - 1] == q[j];
    } else {
      forall i | 0 <= i < |w| ensures w[i] != q[j] {
        assert w[i] == q[if i < k then i else i + 1];
      }
    }
  }

  /** A waiting packet leaves by a verdict from the owner whose id finds it, by a purge of its
      own socket, or by a reset, and by nothing else; and each of these does take it out. */
  lemma LeavesExactlyBy(s: State, e: Event, j: nat)
    requires Inv(s) && j < |s.waiting|
    ensures s.waiting[j] in Next(s, e).waiting <==> !Removes(s, e, s.waiting[j])
  {
    var de := s.waiting[j];
    match e {
      case Decided(id, verdict, pid, dead) =>
        var k := Find(s.waiting, id);
        IdFinds(s, id, j);
        if k < |s.waiting| {
          forall i | 0 <= i < |s.waiting| && s.waiting[i] == de ensures i == j {
            EntriesDistinct(s, i, j);
          }
          WithoutMembers(s.waiting, k, j);
        }
      case SockPurged(sock) => KeptIff(s.waiting, Some(sock), de);
      case PeerClosed(pid) => KeptIff(s.waiting, None, de);
      case Unloaded => KeptIff(s.waiting, None, de);
      case Allocated(_) =>
      case Locked(k, sent) =>
        assert de in s.waiting;
      case Discarded(_) =>
      case Freed(_) =>
    }
  }

  lemma {:induction false} PurgedIff(q: seq<Entry>, sk: Option<Sock>, de: Entry)
    ensures de in Purged(q, sk) <==> de in q && Purges(sk, de)
  {
    if q != [] {
      PurgedIff(q[..|q| - 1], sk, de);
      assert de in q <==> de in q[..|q| - 1] || de == q[|q| - 1];
    }
  }

  /** A waiting entry has not ended anywhere. */
  lemma NotEnded(s: State, j: nat)
    requires Inv(s) && j < |s.waiting|
    ensures s.waiting[j] !in s.dropped && s.waiting[j] !in s.released
  {
    var de := s.waiting[j];
    var key := Serial(de.serial);
    assert Places(s, de.serial) <= 1;
    CountMember(s.waiting, j, key);
    forall i | 0 <= i < |s.dropped| ensures s.dropped[i] != de {
      if s.dropped[i] == de {
        CountMember(s.dropped, i, key);
      }
    }
    forall i | 0 <= i < |s.released| ensures s.released[i] != de {
      if s.released[i] == de {
        CountMember(s.released, i, key);
      }
    }
  }

  predicate Releases(e: Event, de: Entry) {
    e.Decided? && e.verdict == DELAY_RELEASE && (de.sk.None? || !e.dead)
  }

  predicate Drops(e: Event, de: Entry) {
    e.Decided? ==> e.verdict == DELAY_DROP || (e.verdict == DELAY_RELEASE && de.sk.Some? && e.dead)
  }

  /** Where a packet that leaves goes: it is sent on exactly by a RELEASE verdict while its socket,
      if it has one, is alive; it is dropped exactly by a DROP verdict, a RELEASE for a dead
      socket, a purge or a reset. */
  lemma EndsWhere(s: State, e: Event, j: nat)
    requires Inv(s) && j < |s.waiting| && Removes(s, e, s.waiting[j])
    ensures s.waiting[j] in Next(s, e).released <==> Releases(e, s.waiting[j])
    ensures s.waiting[j] in Next(s, e).dropped <==> Drops(e, s.waiting[j])
  {
    var de := s.waiting[j];
    NotEnded(s, j);
    if e.Decided? {
      IdFinds(s, e.id, j);
    } else {
      PurgedIff(s.waiting, if e.SockPurged? then Some(e.sock) else None, de);
    }
  }

  // ---------- The order of the queue ----------

  /** `a` is `b` with some entries left out. */
  ghost predicate Subseq(a: seq<Entry>, b: seq<Entry>) {
    if a == [] then true
    else if b == [] then false
    else if a[|a| - 1] == b[|b| - 1] then Subseq(a[..|a| - 1], b[..|b| - 1])
    else Subseq(a, b[..|b| - 1])
  }

  lemma {:induction false} SubseqSelf(q: seq<Entry>)
    ensures Subseq(q, q)
  {
    if q != [] {
      SubseqSelf(q[..|q| - 1]);
    }
  }

  lemma {:induction false} SubseqMore(a: seq<Entry>, b: seq<Entry>)
    requires b != [] && Subseq(a, b[..|b| - 1])
    ensures Subseq(a, b)
  {
    if a != [] && a[|a| - 1] == b[|b| - 1] {
      SubseqLess(a, b[..|b| - 1]);
    }
  }

  lemma {:induction false} SubseqLess(a: seq<Entry>, b: seq<Entry>)
    requires a != [] && Subseq(a, b)
    ensures Subseq(a[..|a| - 1], b)
  {
    if b != [] {
      if a[|a| - 1] == b[|b| - 1] {
        SubseqMore(a[..|a| - 1], b);
      } else {
        SubseqLess(a, b[..|b| - 1]);
        SubseqMore(a[..|a| - 1], b);
      }
    }
  }

  lemma {:induction false} KeptSubseq(q: seq<Entry>, sk: Option<Sock>)
    ensures Subseq(Kept(q, sk), q)
  {
    if q != [] {
      var k := |q| - 1;
      KeptSubseq(q[..k], sk);
      if Purges(sk, q[k]) {
        assert Kept(q, sk) == Kept(q[..k], sk);
        SubseqMore(Kept(q, sk), q);
      } else {
        assert Kept(q, sk)[..|Kept(q, sk)| - 1] == Kept(q[..k], sk);
      }
    }
  }

  lemma {:induction false} PurgedSubseq(q: seq<Entry>, sk: Option<Sock>)
    ensures Subseq(Purged(q, sk), q)
  {
    if q != [] {
      var k, gone := |q| - 1, Purged(q[..|q| - 1], sk);
      PurgedSubseq(q[..k], sk);
      if Purges(sk, q[k]) {
        assert Purged(q, sk) == gone + [q[k]];
        assert (gone + [q[k]])[..|gone|] == gone;
      } else {
        assert Purged(q, sk) == gone;
        SubseqMore(gone, q);
      }
    }
  }

  /** A purge drops exactly the waiting packets of its socket, in the order in which they waited. */
  lemma PurgeDrops(s: State, sock: Sock, de: Entry)
    ensures var t, gone := Next(s, SockPurged(sock)), Purged(s.waiting, Some(sock));
            && t.dropped == s.dropped + gone && Subseq(gone, s.waiting)
            && (de in gone <==> de in s.waiting && de.sk == Some(sock))
            && (de in t.waiting <==> de in s.waiting && de.sk != Some(sock))
  {
    PurgedSubseq(s.waiting, Some(sock));
    PurgedIff(s.waiting, Some(sock), de);
    KeptIff(s.waiting, Some(sock), de);
  }

  lemma {:induction false} WithoutSubseq(q: seq<Entry>, k: nat)
    requires k < |q|
    ensures Subseq(DropAt(q, k), q)
    decreases |q|
  {
    var l := |q| - 1;
    if k == l {
      assert DropAt(q, k) == q[..l];
      SubseqSelf(q[..l]);
      SubseqMore(q[..l], q);
    } else {
      WithoutSubseq(q[..l], k);
      var w := DropAt(q, k);
      assert w[|w| - 1] == q[l] && w[..|w| - 1] == DropAt(q[..l], k);
    }
  }

  /** A step adds at the tail, or takes entries out and keeps the order of the rest. */
  lemma OrderKept(s: State, e: Event)
    ensures var q, q' := s.waiting, Next(s, e).waiting;
            if e.Locked? && |q'| > |q| then q' == q + [s.pending[e.k]] else Subseq(q', q)
  {
    SubseqSelf(s.waiting);
    match e
    case Decided(id, _, _, _) =>
      if Find(s.waiting, id) < |s.waiting| {
        WithoutSubseq(s.waiting, Find(s.waiting, id));
      }
    case SockPurged(sock) => KeptSubseq(s.waiting, Some(sock));
    case PeerClosed(_) => KeptSubseq(s.waiting, None);
    case Unloaded => KeptSubseq(s.waiting, None);
    case Allocated(_) =>
    case Locked(_, _) =>
    case Discarded(_) =>
    case Freed(_) =>
  }

  lemma {:induction false} SubseqTrans(a: seq<Entry>, b: seq<Entry>, c: seq<Entry>)
    requires Subseq(a, b) && Subseq(b, c)
    ensures Subseq(a, c)
    decreases |b| + |c|
  {
    if a != [] {
      var b', c' := b[..|b| - 1], c[..|c| - 1];
      if b[|b| - 1] != c[|c| - 1] {
        SubseqTrans(a, b, c');
        SubseqMore(a, c);
      } else if a[|a| - 1] == b[|b| - 1] {
        SubseqTrans(a[..|a| - 1], b', c');
      } else {
        SubseqTrans(a, b', c');
        SubseqMore(a, c);
      }
    }
  }

  lemma SubseqSnoc(a: seq<Entry>, b: seq<Entry>, x: Entry)
    requires Subseq(a, b)
    ensures Subseq(a + [x], b + [x])
  {
    assert (a + [x])[..|a|] == a && (b + [x])[..|b|] == b;
  }

  /** The entry that a step queues, if any. */
  ghost function JoinedBy(s: State, e: Event): seq<Entry> {
    if e.Locked? && |Next(s, e).waiting| > |s.waiting| then [s.pending[e.k]] else []
  }

  lemma StepOrder(s: State, e: Event, all: seq<Entry>)
    requires Subseq(s.waiting, all)
    ensures Subseq(Next(s, e).waiting, all + JoinedBy(s, e))
  {
    OrderKept(s, e);
    if JoinedBy(s, e) != [] {
      SubseqSnoc(s.waiting, all, s.pending[e.k]);
    } else {
      SubseqTrans(Next(s, e).waiting, s.waiting, all);
      assert all + [] == all;
    }
  }

  /** The entries that a run queued, in order. */
  ghost function Joined(s: State, es: seq<Event>): seq<Entry> {
    if es == [] then []
    else Joined(s, es[..|es| - 1]) + JoinedBy(Run(s, es[..|es| - 1]), es[|es| - 1])
  }

  /** First come, first in line: after any run the packets that wait do so in the order in which
      they were queued. */
  lemma {:induction false} RunOrderKept(s: State, es: seq<Event>)
    ensures Subseq(Run(s, es).waiting, s.waiting + Joined(s, es))
  {
    if es == [] {
      SubseqSelf(s.waiting);
      assert s.waiting + [] == s.waiting;
    } else {
      var rest, e := es[..|es| - 1], es[|es| - 1];
      RunOrderKept(s, rest);
      StepOrder(Run(s, rest), e, s.waiting + Joined(s, rest));
      ConcatAssoc(s.waiting, Joined(s, rest), JoinedBy(Run(s, rest), e));
    }
  }
}
