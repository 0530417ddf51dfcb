/** What the write queue of `src/stack/serval_tcp.h` goes through as a value: the packets in
    queue order, how many of them count as sent, and the packets handed to the network so far. */
module SendOrder {
  import opened Wrappers

  function InsertAt<P>(q: seq<P>, k: nat, x: P): (r: seq<P>)
    requires k <= |q|
    ensures |r| == |q| + 1
  {
    q[..k] + [x] + q[k..]
  }

  ghost predicate Precedes<P>(q: seq<P>, x: P, y: P) {
    exists i, j :: 0 <= i < j < |q| && q[i] == x && q[j] == y
  }

  /** `seen` holds every packet ever queued, `log` those that Advance passed, oldest first. */
  datatype State<P> = State(q: seq<P>, sent: nat, log: seq<P>, seen: set<P>)

  /** Packets are named by their place in the queue. */
  datatype Event<P> =
    | Tail(x: P)
    | Head(x: P)
    | After(k: nat, x: P)
    | Before(k: nat, x: P)
    | Advance(k: nat)
    | Unlink(k: nat)
    | Fault(k: nat)

  predicate Adds<P>(e: Event<P>) {
    e.Tail? || e.Head? || e.After? || e.Before?
  }

  /** Where a new packet goes, and whether that is ahead of the send head. */
  function Place<P>(s: State<P>, e: Event<P>): nat
    requires Adds(e)
  {
    match e
    case Tail(x) => |s.q|
    case Head(x) => 0
    case After(k, x) => k + 1
    case Before(k, x) => k
  }

  predicate Joins<P>(s: State<P>, e: Event<P>)
    requires Adds(e)
  {
    match e
    case Tail(x) => false
    case Head(x) => true
    case After(k, x) => k < s.sent
    case Before(k, x) => k < s.sent
  }

  /** Packets are new when they are added, others are in the queue; unlinking the send head is
      only done by Fault, which puts the send head right. */
  predicate Possible<P(==)>(s: State<P>, e: Event<P>) {
    && s.sent <= |s.q|
    && (Adds(e) ==> e.x !in s.seen)
    && (!e.Tail? && !e.Head? ==> e.k < |s.q|)
    && (e.Unlink? ==> e.k != s.sent)
  }

  function Next<P(==)>(s: State<P>, e: Event<P>): (t: State<P>)
    requires Possible(s, e)
    ensures t.sent <= |t.q|
  {
    if Adds(e) then
      s.(q := InsertAt(s.q, Place(s, e), e.x), sent := if Joins(s, e) then s.sent + 1 else s.sent,
         seen := s.seen + {e.x})
    else if e.Advance? then
      s.(sent := e.k + 1, log := s.log + [s.q[e.k]])
    else
      s.(q := DropAt(s.q, e.k),
         sent := if e.k < s.sent then s.sent - 1 else if e.k == s.sent then |s.q| - 1 else s.sent)
  }

  /** As TCP uses the queue: only the send head is passed, and a send head dropped on a fault is last. */
  predicate Proper<P(==)>(s: State<P>, e: Event<P>) {
    && Possible(s, e)
    && (e.Advance? ==> e.k == s.sent)
    && (e.Fault? ==> e.k != s.sent || e.k == |s.q| - 1)
  }

  // ---------- Order ----------

  lemma InsertKeepsOrder<P>(q: seq<P>, k: nat, z: P, x: P, y: P)
    requires k <= |q| && Precedes(q, x, y)
    ensures Precedes(InsertAt(q, k, z), x, y)
  {
    var r := InsertAt(q, k, z);
    var i, j :| 0 <= i < j < |q| && q[i] == x && q[j] == y;
    assert r[if i < k then i else i + 1] == x;
    assert r[if j < k then j else j + 1] == y;
  }

  lemma DropKeepsOrder<P>(q: seq<P>, k: nat, x: P, y: P)
    requires k < |q| && Precedes(q, x, y) && x != q[k] && y != q[k]
    ensures Precedes(DropAt(q, k), x, y)
  {
    var r := DropAt(q, k);
    var i, j :| 0 <= i < j < |q| && q[i] == x && q[j] == y;
    assert r[if i < k then i else i - 1] == x;
    assert r[if j < k then j else j - 1] == y;
  }

  lemma DropDistinct<P>(q: seq<P>, k: nat)
    requires k < |q| && Distinct(q)
    ensures Distinct(DropAt(q, k)) && q[k] !in DropAt(q, k)
  {
  }

  lemma InsertDistinct<P>(q: seq<P>, k: nat, x: P)
    requires k <= |q| && Distinct(q) && x !in q
    ensures Distinct(InsertAt(q, k, x))
  {
  }

  // ---------- Every run ----------

  /** Packets were passed once each, in queue order, and none of them is behind the send head. */
  ghost predicate Inv<P>(s: State<P>) {
    && s.sent <= |s.q| && Distinct(s.q) && Distinct(s.log)
    && (forall x :: x in s.q ==> x in s.seen) && (forall x :: x in s.log ==> x in s.seen)
    && (forall j :: s.sent <= j < |s.q| ==> s.q[j] !in s.log)
    && (forall i, j :: 0 <= i < j < |s.log| && s.log[i] in s.q && s.log[j] in s.q ==>
          Precedes(s.q, s.log[i], s.log[j]))
  }

  lemma AddKeeps<P>(s: State<P>, e: Event<P>)
    requires Inv(s) && Possible(s, e) && Adds(e)
    ensures Inv(Next(s, e))
  {
    var t := Next(s, e);
    var k := Place(s, e);
    assert Joins(s, e) ==> k <= s.sent;
    assert !Joins(s, e) ==> k >= s.sent;
    InsertDistinct(s.q, k, e.x);
    forall x | x in t.q ensures x in s.q || x == e.x {
    }
    forall i, j | 0 <= i < j < |t.log| && t.log[i] in t.q && t.log[j] in t.q
      ensures Precedes(t.q, t.log[i], t.log[j])
    {
      InsertKeepsOrder(s.q, k, e.x, s.log[i], s.log[j]);
    }
  }

  lemma AdvanceKeeps<P>(s: State<P>, e: Event<P>)
    requires Inv(s) && Proper(s, e) && e.Advance?
    ensures Inv(Next(s, e))
  {
    var t := Next(s, e);
    forall i | 0 <= i < |s.log| && s.log[i] in s.q ensures Precedes(s.q, s.log[i], s.q[s.sent]) {
      var m :| 0 <= m < |s.q| && s.q[m] == s.log[i];
    }
  }

  lemma DropKeeps<P>(s: State<P>, e: Event<P>)
    requires Inv(s) && Proper(s, e) && (e.Unlink? || e.Fault?)
    ensures Inv(Next(s, e))
  {
    var t := Next(s, e);
    DropDistinct(s.q, e.k);
    forall i, j | 0 <= i < j < |t.log| && t.log[i] in t.q && t.log[j] in t.q
      ensures Precedes(t.q, t.log[i], t.log[j])
    {
      DropKeepsOrder(s.q, e.k, s.log[i], s.log[j]);
    }
  }

  ghost predicate Run<P>(s: State<P>, es: seq<Event<P>>, t: State<P>)
    decreases |es|
  {
    if es == [] then s == t else Proper(s, es[0]) && Run(Next(s, es[0]), es[1..], t)
  }

  lemma NextKeeps<P>(s: State<P>, e: Event<P>)
    requires Inv(s) && Proper(s, e)
    ensures Inv(Next(s, e))
  {
    if Adds(e) {
      AddKeeps(s, e);
    } else if e.Advance? {
      AdvanceKeeps(s, e);
    } else {
      DropKeeps(s, e);
    }
  }

  /** Over every run packets are passed once each and in queue order. */
  lemma {:induction false} RunKeeps<P>(s: State<P>, es: seq<Event<P>>, t: State<P>)
    requires Inv(s) && Run(s, es, t)
    ensures Inv(t)
    decreases |es|
  {
    if es != [] {
      NextKeeps(s, es[0]);
      RunKeeps(Next(s, es[0]), es[1..], t);
    }
  }

  // ---------- What a step does to one packet ----------

  predicate Sent<P(==)>(s: State<P>, x: P)
    requires s.sent <= |s.q|
  {
    x in s.q[..s.sent]
  }

  /** A sent packet stays sent while it is queued, and one becomes sent only by being passed. */
  ghost predicate Honest<P>(s: State<P>, t: State<P>)
    requires s.sent <= |s.q| && t.sent <= |t.q|
  {
    && (forall x :: x in s.q && x in t.q && Sent(s, x) ==> Sent(t, x))
    && (forall x :: x in s.q && x in t.q && Sent(t, x) ==> Sent(s, x) || x in t.log)
  }

  lemma PlaceOfSent<P>(s: State<P>, i: nat)
    requires s.sent <= |s.q| && Distinct(s.q) && i < |s.q|
    ensures Sent(s, s.q[i]) <==> i < s.sent
  {
    if i < s.sent {
      assert s.q[..s.sent][i] == s.q[i];
    }
  }

  lemma AddIsHonest<P>(s: State<P>, e: Event<P>, x: P)
    requires Inv(s) && Possible(s, e) && Adds(e) && x in s.q
    ensures x in Next(s, e).q && (Sent(s, x) <==> Sent(Next(s, e), x))
  {
    var t := Next(s, e);
    var k := Place(s, e);
    AddKeeps(s, e);
    var i :| 0 <= i < |s.q| && s.q[i] == x;
    var j := if i < k then i else i + 1;
    assert t.q[j] == x;
    PlaceOfSent(s, i);
    PlaceOfSent(t, j);
  }

  lemma DropIsHonest<P>(s: State<P>, e: Event<P>, i: nat)
    requires Inv(s) && Possible(s, e) && (e.Unlink? || e.Fault?) && i < |s.q| && i != e.k
    ensures s.q[i] in Next(s, e).q
    ensures Sent(Next(s, e), s.q[i]) <==> Sent(s, s.q[i]) || e.k == s.sent
  {
    var t := Next(s, e);
    DropDistinct(s.q, e.k);
    var j := if i < e.k then i else i - 1;
    assert t.q[j] == s.q[i];
    PlaceOfSent(s, i);
    PlaceOfSent(t, j);
  }

  lemma HonestAdvance<P>(s: State<P>, e: Event<P>)
    requires Inv(s) && Possible(s, e) && e.Advance?
    ensures Honest(s, Next(s, e)) <==> e.k == s.sent || e.k + 1 == s.sent
  {
    var t := Next(s, e);
    forall i | 0 <= i < |s.q| ensures (Sent(s, s.q[i]) <==> i < s.sent) && (Sent(t, s.q[i]) <==> i <= e.k) {
      PlaceOfSent(s, i);
      PlaceOfSent(t, i);
    }
    if e.k > s.sent {
      assert Sent(t, s.q[s.sent]) && s.q[s.sent] !in t.log;
    } else if e.k + 1 < s.sent {
      assert Sent(s, s.q[e.k + 1]) && !Sent(t, s.q[e.k + 1]);
    }
  }

  lemma HonestDrop<P>(s: State<P>, e: Event<P>)
    requires Inv(s) && Possible(s, e) && (e.Unlink? || e.Fault?)
    ensures Honest(s, Next(s, e)) <==> e.k != s.sent || e.k == |s.q| - 1
  {
    var t := Next(s, e);
    forall i | 0 <= i < |s.q| && i != e.k ensures Sent(t, s.q[i]) <==> Sent(s, s.q[i]) || e.k == s.sent {
      DropIsHonest(s, e, i);
    }
    DropDistinct(s.q, e.k);
    if e.k == s.sent {
      forall i | s.sent < i < |s.q| ensures !Sent(s, s.q[i]) && s.q[i] !in t.log {
        PlaceOfSent(s, i);
      }
      forall i | 0 <= i < s.sent ensures Sent(s, s.q[i]) {
        PlaceOfSent(s, i);
      }
    }
    if e.k == s.sent && e.k < |s.q| - 1 {
      DropIsHonest(s, e, e.k + 1);
      assert s.q[e.k + 1] in t.q;
    }
  }

  /** Exactly when a step is honest: Advance takes the send head (or the packet before it, which
      changes nothing), and a fault does not drop a send head with packets behind it. */
  lemma HonestStep<P>(s: State<P>, e: Event<P>)
    requires Inv(s) && Possible(s, e)
    ensures Honest(s, Next(s, e)) <==>
            && (e.Advance? ==> e.k == s.sent || e.k + 1 == s.sent)
            && (e.Fault? ==> e.k != s.sent || e.k == |s.q| - 1)
  {
    if Adds(e) {
      forall x | x in s.q ensures Sent(s, x) <==> Sent(Next(s, e), x) {
        AddIsHonest(s, e, x);
      }
    } else if e.Advance? {
      HonestAdvance(s, e);
    } else {
      HonestDrop(s, e);
    }
  }

  /** Steps that are not honest, on two packets that wait to be sent: passing the second skips the
      first, and so does dropping the first on a fault. */
  lemma DishonestSteps<P>(x: P, y: P)
    requires x != y
    ensures var s := State([x, y], 0, [], {x, y});
            Inv(s) && !Honest(s, Next(s, Advance(1))) && !Honest(s, Next(s, Fault(0)))
  {
    var s := State([x, y], 0, [], {x, y});
    HonestStep(s, Advance(1));
    HonestStep(s, Fault(0));
  }

  // ---------- What a run does to the packets that stay ----------

  /** A packet that left the queue does not come back. */
  lemma {:induction false} Gone<P>(s: State<P>, es: seq<Event<P>>, t: State<P>, x: P)
    requires Inv(s) && Run(s, es, t) && x in s.seen && x !in s.q
    ensures x !in t.q
    decreases |es|
  {
    if es != [] {
      var u := Next(s, es[0]);
      NextKeeps(s, es[0]);
      assert x !in u.q;
      Gone(u, es[1..], t, x);
    }
  }

  lemma {:induction false} LogGrows<P>(s: State<P>, es: seq<Event<P>>, t: State<P>)
    requires Run(s, es, t)
    ensures s.log <= t.log
    decreases |es|
  {
    if es != [] {
      LogGrows(Next(s, es[0]), es[1..], t);
    }
  }

  lemma StepKeepsOrder<P>(s: State<P>, e: Event<P>, x: P, y: P)
    requires Inv(s) && Proper(s, e) && Precedes(s.q, x, y) && x in Next(s, e).q && y in Next(s, e).q
    ensures Precedes(Next(s, e).q, x, y)
  {
    if Adds(e) {
      InsertKeepsOrder(s.q, Place(s, e), e.x, x, y);
    } else if !e.Advance? {
      DropDistinct(s.q, e.k);
      DropKeepsOrder(s.q, e.k, x, y);
    }
  }

  /** In every run, two packets that stay queued keep their order; a sent one stays sent, and an
      unsent one becomes sent only by being passed. */
  lemma {:induction false} RunIsHonest<P>(s: State<P>, es: seq<Event<P>>, t: State<P>, x: P, y: P)
    requires Inv(s) && Run(s, es, t) && x in s.q && x in t.q && y in s.q && y in t.q
    ensures Precedes(s.q, x, y) ==> Precedes(t.q, x, y)
    ensures t.sent <= |t.q|
    ensures Sent(s, x) ==> Sent(t, x)
    ensures Sent(t, x) ==> Sent(s, x) || x in t.log
    decreases |es|
  {
    if es != [] {
      var u := Next(s, es[0]);
      NextKeeps(s, es[0]);
      HonestStep(s, es[0]);
      if x !in u.q {
        Gone(u, es[1..], t, x);
      }
      if y !in u.q {
        Gone(u, es[1..], t, y);
      }
      if Precedes(s.q, x, y) {
        StepKeepsOrder(s, es[0], x, y);
      }
      LogGrows(u, es[1..], t);
      RunIsHonest(u, es[1..], t, x, y);
    }
  }

  // ---------- Where packets go, and the order in which they are passed ----------

  /** Where each step puts or takes a packet, in terms of the queue before. */
  lemma WhereItGoes<P>(s: State<P>, e: Event<P>)
    requires Possible(s, e)
    ensures var q := Next(s, e).q;
            match e
            case Tail(x) => q == s.q + [x]
            case Head(x) => q == [x] + s.q
            case After(k, x) => q == s.q[..k + 1] + [x] + s.q[k + 1..]
            case Before(k, x) => q == s.q[..k] + [x] + s.q[k..]
            case Advance(k) => q == s.q
            case Unlink(k) => q == s.q[..k] + s.q[k + 1..]
            case Fault(k) => q == s.q[..k] + s.q[k + 1..]
  {
  }

  /** The packets that a run adds at the tail, in turn. */
  function Tails<P>(es: seq<Event<P>>): seq<P> {
    if es == [] then [] else (if es[0].Tail? then [es[0].x] else []) + Tails(es[1..])
  }

  /** A packet that is queued and sent was passed. */
  ghost predicate Fair<P>(s: State<P>, x: P)
    requires s.sent <= |s.q|
  {
    x in s.seen && (x in s.q && Sent(s, x) ==> x in s.log)
  }

  /** `x` comes before `y`: it is ahead while both are queued, was passed earlier if both were passed, and
      is not passed over while it is queued. */
  ghost predicate InTurn<P>(s: State<P>, x: P, y: P)
    requires s.sent <= |s.q|
  {
    && x != y && Fair(s, x) && Fair(s, y)
    && (x in s.q && y in s.q ==> Precedes(s.q, x, y))
    && (x in s.log && y in s.log ==> Precedes(s.log, x, y))
    && (x in s.q && y in s.log ==> x in s.log)
  }

  lemma FairStep<P>(s: State<P>, e: Event<P>, x: P)
    requires Inv(s) && Proper(s, e) && Fair(s, x)
    ensures Fair(Next(s, e), x) && (x in Next(s, e).q ==> x in s.q)
  {
    HonestStep(s, e);
    var t := Next(s, e);
    if x in t.q {
      StaysSeen(s, e, x);
    }
  }

  /** What is queued after a step was so before, or is the packet that the step adds. */
  lemma StaysSeen<P>(s: State<P>, e: Event<P>, x: P)
    requires Possible(s, e) && x in Next(s, e).q
    ensures x in s.q || (Adds(e) && x == e.x)
  {
  }

  lemma TailStep<P>(s: State<P>, x: P)
    requires Inv(s) && Possible(s, Tail(x))
    ensures Fair(Next(s, Tail(x)), x)
    ensures forall y :: Fair(s, y) ==> InTurn(Next(s, Tail(x)), y, x)
  {
    var t := Next(s, Tail(x));
    AddKeeps(s, Tail(x));
    WhereItGoes(s, Tail(x));
    PlaceOfSent(t, |s.q|);
    forall y | Fair(s, y) ensures InTurn(t, y, x) {
      FairStep(s, Tail(x), y);
      if y in t.q {
        var i :| 0 <= i < |s.q| && s.q[i] == y;
        assert t.q[i] == y && t.q[|s.q|] == x;
      }
    }
  }

  lemma PrecedesMore<P>(q: seq<P>, x: P, y: P, z: P)
    ensures Precedes(q, x, y) ==> Precedes(q + [z], x, y)
    ensures x in q ==> Precedes(q + [z], x, z)
  {
    if Precedes(q, x, y) {
      var i, j :| 0 <= i < j < |q| && q[i] == x && q[j] == y;
      assert (q + [z])[i] == x && (q + [z])[j] == y;
    }
    if x in q {
      var i :| 0 <= i < |q| && q[i] == x;
      assert (q + [z])[i] == x && (q + [z])[|q|] == z;
    }
  }

  /** Passing the send head: what is ahead of it was passed already. */
  lemma PassInTurn<P>(s: State<P>, e: Event<P>, x: P, y: P)
    requires Inv(s) && Proper(s, e) && e.Advance? && InTurn(s, x, y)
    ensures InTurn(Next(s, e), x, y)
  {
    var t, z := Next(s, e), s.q[s.sent];
    FairStep(s, e, x);
    FairStep(s, e, y);
    PrecedesMore(s.log, x, y, z);
    if y == z && x in s.q {
      var i, j :| 0 <= i < j < |s.q| && s.q[i] == x && s.q[j] == y;
      assert j == s.sent;
      PlaceOfSent(s, i);
    }
  }

  lemma InTurnStep<P>(s: State<P>, e: Event<P>, x: P, y: P)
    requires Inv(s) && Proper(s, e) && InTurn(s, x, y)
    ensures InTurn(Next(s, e), x, y)
  {
    if e.Advance? {
      PassInTurn(s, e, x, y);
    } else {
      FairStep(s, e, x);
      FairStep(s, e, y);
      if x in Next(s, e).q && y in Next(s, e).q {
        StepKeepsOrder(s, e, x, y);
      }
    }
  }

  lemma {:induction false} RunInTurn<P>(s: State<P>, es: seq<Event<P>>, t: State<P>, x: P, y: P)
    requires Inv(s) && Run(s, es, t) && InTurn(s, x, y)
    ensures t.sent <= |t.q| && InTurn(t, x, y)
    decreases |es|
  {
    if es != [] {
      NextKeeps(s, es[0]);
      InTurnStep(s, es[0], x, y);
      RunInTurn(Next(s, es[0]), es[1..], t, x, y);
    }
  }

  /** A packet there before is in turn with every one that a run adds at the tail. */
  lemma {:induction false} TailsAfter<P>(s: State<P>, es: seq<Event<P>>, t: State<P>, x: P, j: nat)
    requires Inv(s) && Run(s, es, t) && Fair(s, x) && j < |Tails(es)|
    ensures t.sent <= |t.q| && InTurn(t, x, Tails(es)[j])
    decreases |es|
  {
    var u := Next(s, es[0]);
    NextKeeps(s, es[0]);
    FairStep(s, es[0], x);
    if es[0].Tail? && j == 0 {
      TailStep(s, es[0].x);
      RunInTurn(u, es[1..], t, x, es[0].x);
    } else {
      TailsAfter(u, es[1..], t, x, if es[0].Tail? then j - 1 else j);
    }
  }

  /** First in, first out: in every run, of two packets added at the tail the older one is ahead while both
      are queued, and is passed first if both are passed; the younger one is never passed over it. */
  lemma {:induction false} PassedInTurn<P>(s: State<P>, es: seq<Event<P>>, t: State<P>, i: nat, j: nat)
    requires Inv(s) && Run(s, es, t) && i < j < |Tails(es)|
    ensures t.sent <= |t.q| && InTurn(t, Tails(es)[i], Tails(es)[j])
    decreases |es|
  {
    var u := Next(s, es[0]);
    NextKeeps(s, es[0]);
    if es[0].Tail? && i == 0 {
      TailStep(s, es[0].x);
      TailsAfter(u, es[1..], t, es[0].x, j - 1);
    } else if es[0].Tail? {
      PassedInTurn(u, es[1..], t, i - 1, j - 1);
    } else {
      PassedInTurn(u, es[1..], t, i, j);
    }
  }
}
