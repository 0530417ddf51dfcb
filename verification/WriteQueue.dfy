/** The packet ring of `include/serval/skbuff.h` and the write queue with its send head on top of
    it (`src/stack/serval_tcp.h`), tied to the values of SendOrder. */
module WriteQueue {
  import opened Wrappers
  import opened SendOrder

  class Skb {
    var next: Skb?
    var prev: Skb?

    constructor ()
      ensures next == null && prev == null
    {
      next, prev := null, null;
    }
  }

  /** The ring read from its head round to the head again. */
  function At(head: Skb, q: seq<Skb>, i: nat): Skb
    requires i <= |q| + 1
  {
    if i == 0 || i == |q| + 1 then head else q[i - 1]
  }

  ghost predicate Joined(head: Skb, q: seq<Skb>, i: nat)
    requires i <= |q|
    reads head, q
  {
    && At(head, q, i).next == At(head, q, i + 1)
    && At(head, q, i + 1).prev == At(head, q, i)
  }

  lemma AtInserted(head: Skb, q: seq<Skb>, k: nat, x: Skb, i: nat)
    requires k <= |q| && i <= |q| + 2
    ensures At(head, InsertAt(q, k, x), i) ==
            if i <= k then At(head, q, i) else if i == k + 1 then x else At(head, q, i - 1)
  {
  }

  lemma AtDropped(head: Skb, q: seq<Skb>, k: nat, i: nat)
    requires k < |q| && i <= |q|
    ensures At(head, DropAt(q, k), i) == if i <= k then At(head, q, i) else At(head, q, i + 1)
  {
  }

  lemma AtDistinct(head: Skb, q: seq<Skb>, i: nat, j: nat)
    requires head !in q && Distinct(q) && i < j <= |q| + 1 && (i > 0 || j <= |q|)
    ensures At(head, q, i) != At(head, q, j)
  {
  }

  class Ring {
    const head: Skb
    var qlen: nat
    ghost var q: seq<Skb>

    ghost predicate Valid()
      reads this, head, q
    {
      && qlen == |q| && head !in q && Distinct(q)
      && forall i {:trigger Joined(head, q, i)} :: 0 <= i <= |q| ==> Joined(head, q, i)
    }

    /** __skb_queue_head_init */
    constructor ()
      ensures Valid() && q == [] && fresh(head)
    {
      head := new Skb();
      qlen, q := 0, [];
      new;
      head.next, head.prev := head, head;
    }

    /** __skb_insert */
    method Insert(newsk: Skb, prev: Skb, next: Skb, ghost k: nat)
      requires Valid() && newsk !in q && newsk != head && k <= |q|
      requires prev == At(head, q, k) && next == At(head, q, k + 1)
      modifies this, newsk, prev`next, next`prev
      ensures Valid() && q == InsertAt(old(q), k, newsk)
    {
      newsk.next := next;
      newsk.prev := prev;
      next.prev := newsk;
      prev.next := newsk;
      qlen := qlen + 1;
      q := InsertAt(q, k, newsk);
      InsertDistinct(old(q), k, newsk);
      forall i {:trigger Joined(head, q, i)} | 0 <= i <= |q| ensures Joined(head, q, i) {
        AtInserted(head, old(q), k, newsk, i);
        AtInserted(head, old(q), k, newsk, i + 1);
        if i < k {
          assert old(Joined(head, q, i));
          AtDistinct(head, old(q), i, k);
          AtDistinct(head, old(q), i + 1, k + 1);
        } else if i > k + 1 {
          assert old(Joined(head, q, i - 1));
          AtDistinct(head, old(q), k, i - 1);
          AtDistinct(head, old(q), k + 1, i);
        }
      }
    }

    /** __skb_unlink */
    method Unlink(skb: Skb, ghost k: nat)
      requires Valid() && k < |q| && q[k] == skb
      modifies this, head, q
      ensures Valid() && q == DropAt(old(q), k) && skb.next == null && skb.prev == null
    {
      assert Joined(head, q, k) && Joined(head, q, k + 1);
      qlen := qlen - 1;
      var next := skb.next;
      var prev := skb.prev;
      skb.next := null;
      skb.prev := null;
      next.prev := prev;
      prev.next := next;
      q := DropAt(q, k);
      DropDistinct(old(q), k);
      forall i {:trigger Joined(head, q, i)} | 0 <= i <= |q| ensures Joined(head, q, i) {
        AtDropped(head, old(q), k, i);
        AtDropped(head, old(q), k, i + 1);
        if i < k {
          assert old(Joined(head, q, i));
        } else if i > k {
          assert old(Joined(head, q, i + 1));
        }
      }
    }

    /** __skb_queue_after, which with the head for `prev` is __skb_queue_head */
    method After(prev: Skb, newsk: Skb, ghost k: nat)
      requires Valid() && newsk !in q && newsk != head && k <= |q| && prev == At(head, q, k)
      modifies this, newsk, head, q
      ensures Valid() && q == InsertAt(old(q), k, newsk)
    {
      assert Joined(head, q, k);
      Insert(newsk, prev, prev.next, k);
    }

    /** __skb_queue_before, which with the head for `next` is __skb_queue_tail */
    method Before(next: Skb, newsk: Skb, ghost k: nat)
      requires Valid() && newsk !in q && newsk != head && k <= |q| && next == At(head, q, k + 1)
      modifies this, newsk, head, q
      ensures Valid() && q == InsertAt(old(q), k, newsk)
    {
      assert Joined(head, q, k);
      Insert(newsk, next.prev, next, k);
    }

    /** skb_peek and skb_peek_tail */
    method Peek() returns (skb: Skb?)
      requires Valid()
      ensures skb == if q == [] then null else q[0]
    {
      assert Joined(head, q, 0);
      skb := head.next;
      if skb == head {
        skb := null;
      }
    }

    method PeekTail() returns (skb: Skb?)
      requires Valid()
      ensures skb == if q == [] then null else q[|q| - 1]
    {
      assert Joined(head, q, |q|);
      skb := head.prev;
      if skb == head {
        skb := null;
      }
    }

    /** __skb_dequeue */
    method Dequeue() returns (skb: Skb?)
      requires Valid()
      modifies this, head, q
      ensures Valid()
      ensures old(q) == [] ==> skb == null && q == []
      ensures old(q) != [] ==> skb == old(q[0]) && q == old(q[1..])
    {
      skb := Peek();
      if skb != null {
        Unlink(skb, 0);
      }
    }

    /** The loop of serval_tcp_write_queue_purge. */
    method Purge() returns (freed: seq<Skb>)
      requires Valid()
      modifies this, head, q
      ensures Valid() && q == [] && freed == old(q)
    {
      freed := [];
      var skb := Dequeue();
      while skb != null
        invariant Valid() && |freed| <= |old(q)| && freed == old(q)[..|freed|]
        invariant if skb == null then |freed| == |old(q)| && q == []
                  else |freed| < |old(q)| && skb == old(q)[|freed|] && q == old(q)[|freed| + 1..]
        decreases |q|, skb != null
      {
        freed := freed + [skb];
        skb := Dequeue();
      }
    }
  }

  ghost function IndexOf(q: seq<Skb>, x: Skb): (k: nat)
    requires x in q
    ensures k < |q| && q[k] == x
  {
    if q[0] == x then 0 else 1 + IndexOf(q[1..], x)
  }

  /** The send head: the first packet not sent yet. */
  function Cursor(s: State<Skb>): Skb?
    requires s.sent <= |s.q|
  {
    if s.sent == |s.q| then null else s.q[s.sent]
  }

  /** A new packet becomes the send head exactly when it comes right before it, or when there was none
      and it comes last. */
  lemma AddCursor(s: State<Skb>, e: Event<Skb>)
    requires Possible(s, e) && Adds(e)
    ensures Cursor(Next(s, e)) ==
            if (e.Tail? && s.sent == |s.q|) || (e.Before? && e.k == s.sent) then e.x else Cursor(s)
  {
  }

  /** A new packet as the ring sees it. */
  lemma AddWhole(s: State<Skb>, e: Event<Skb>)
    requires Possible(s, e) && Adds(e) && forall x :: x in s.q ==> x in s.seen
    ensures var t := Next(s, e);
            && t.q == InsertAt(s.q, Place(s, e), e.x) && t.seen == s.seen + {e.x}
            && (forall x :: x in t.q ==> x in t.seen)
            && Cursor(t) == if (e.Tail? && s.sent == |s.q|) || (e.Before? && e.k == s.sent) then e.x else Cursor(s)
  {
    AddCursor(s, e);
    forall x | x in Next(s, e).q ensures x in s.q || x == e.x {
      StaysSeen(s, e, x);
    }
  }

  lemma DropCursor(s: State<Skb>, e: Event<Skb>)
    requires Possible(s, e) && (e.Unlink? || e.Fault?)
    ensures Cursor(Next(s, e)) == if e.k == s.sent then null else Cursor(s)
  {
  }

  /** The write queue of a socket: the ring and the send head. */
  class Queue {
    const ring: Ring
    var sendHead: Skb?
    ghost var s: State<Skb>

    ghost predicate CursorOk()
      reads this
    {
      s.sent <= |s.q| && sendHead == Cursor(s)
    }

    /** The ring holds the sent packets and then the others, of which the send head is the first. */
    ghost predicate Valid()
      reads this, ring, ring.head, ring.q
    {
      && ring.Valid() && ring.q == s.q && CursorOk()
      && ring.head !in s.seen && forall x :: x in s.q ==> x in s.seen
    }

    constructor ()
      ensures Valid() && s == State([], 0, [], {}) && fresh(ring) && fresh(ring.head)
    {
      ring := new Ring();
      sendHead, s := null, State([], 0, [], {});
    }

    /** serval_tcp_add_write_queue_tail */
    method AddTail(skb: Skb)
      requires Valid() && skb !in s.seen && skb != ring.head
      modifies this, ring, ring.head, ring.q, skb
      ensures Valid() && s == Next(old(s), Event.Tail(skb))
      ensures ring.q == old(ring.q) + [skb]
      ensures sendHead == if old(sendHead) == null then skb else old(sendHead)
    {
      WhereItGoes(s, Event.Tail(skb));
      AddWhole(s, Event.Tail(skb));
      ring.Before(ring.head, skb, |ring.q|);
      s := Next(s, Event.Tail(skb));
      if sendHead == null {
        sendHead := skb;
      }
    }

    /** __serval_tcp_add_write_queue_head */
    method AddHead(skb: Skb)
      requires Valid() && skb !in s.seen && skb != ring.head
      modifies this, ring, ring.head, ring.q, skb
      ensures Valid() && s == Next(old(s), Event.Head(skb))
      ensures ring.q == [skb] + old(ring.q) && sendHead == old(sendHead)
    {
      WhereItGoes(s, Event.Head(skb));
      AddWhole(s, Event.Head(skb));
      ring.After(ring.head, skb, 0);
      s := Next(s, Event.Head(skb));
    }

    /** The ring's share of an insertion after a packet. */
    method LinkAfter(skb: Skb, buff: Skb, ghost k: nat)
      requires Valid() && k < |s.q| && skb == s.q[k] && buff !in s.seen && buff != ring.head
      modifies ring, ring.head, ring.q, buff
      ensures ring.Valid() && ring.q == InsertAt(s.q, k + 1, buff)
    {
      ring.After(skb, buff, k + 1);
    }

    /** serval_tcp_insert_write_queue_after */
    method InsertAfter(skb: Skb, buff: Skb)
      requires Valid() && skb in s.q && buff !in s.seen && buff != ring.head
      modifies this, ring, ring.head, ring.q, buff
      ensures Valid() && s == Next(old(s), Event.After(IndexOf(old(s.q), skb), buff))
      ensures ring.q == InsertAt(old(s.q), IndexOf(old(s.q), skb) + 1, buff)
      ensures sendHead == old(sendHead)
    {
      ghost var k := IndexOf(s.q, skb);
      AddWhole(s, Event.After(k, buff));
      LinkAfter(skb, buff, k);
      s := Next(s, Event.After(k, buff));
    }

    /** serval_tcp_insert_write_queue_before */
    method InsertBefore(buff: Skb, skb: Skb)
      requires Valid() && skb in s.q && buff !in s.seen && buff != ring.head
      modifies this, ring, ring.head, ring.q, buff
      ensures Valid() && s == Next(old(s), Event.Before(IndexOf(old(s.q), skb), buff))
      ensures ring.q == InsertAt(old(s.q), IndexOf(old(s.q), skb), buff)
      ensures sendHead == if old(sendHead) == skb then buff else old(sendHead)
    {
      ghost var k := IndexOf(s.q, skb);
      AddWhole(s, Event.Before(k, buff));
      ring.Before(skb, buff, k);
      s := Next(s, Event.Before(k, buff));
      if sendHead == skb {
        sendHead := buff;
      }
    }

    /** serval_tcp_advance_send_head */
    method AdvanceSendHead(skb: Skb)
      requires Valid() && skb in s.q
      modifies this
      ensures Valid() && s == Next(old(s), Event.Advance(IndexOf(old(s.q), skb)))
      ensures var k := IndexOf(ring.q, skb) + 1; sendHead == if k == |ring.q| then null else ring.q[k]
    {
      ghost var k := IndexOf(s.q, skb);
      assert Joined(ring.head, s.q, k + 1);
      if skb.next == ring.head {
        sendHead := null;
      } else {
        sendHead := skb.next;
      }
      s := Next(s, Event.Advance(k));
    }

    /** serval_tcp_unlink_write_queue: the queue stays right exactly when the packet is not the send head,
        which otherwise is left pointing outside the ring. */
    method Unlink(skb: Skb)
      requires Valid() && skb in s.q
      modifies this`s, ring, ring.head, ring.q
      ensures ring.Valid() && ring.q == DropAt(old(s.q), IndexOf(old(s.q), skb))
      ensures skb != sendHead ==> Valid() && s == Next(old(s), Event.Unlink(IndexOf(old(s.q), skb)))
      ensures sendHead != null ==> (sendHead in ring.q <==> skb != sendHead)
    {
      ghost var k := IndexOf(s.q, skb);
      DropDistinct(s.q, k);
      ring.Unlink(skb, k);
      if skb != sendHead {
        DropCursor(s, Event.Unlink(k));
        s := Next(s, Event.Unlink(k));
      }
    }

    /** serval_tcp_unlink_write_queue and then serval_tcp_check_send_head, as after a copy fault. */
    method DropOnFault(skb: Skb)
      requires Valid() && skb in s.q
      modifies this, ring, ring.head, ring.q
      ensures Valid() && s == Next(old(s), Event.Fault(IndexOf(old(s.q), skb)))
      ensures ring.q == DropAt(old(s.q), IndexOf(old(s.q), skb))
      ensures sendHead == if old(sendHead) == skb then null else old(sendHead)
    {
      ghost var k := IndexOf(s.q, skb);
      DropCursor(s, Event.Fault(k));
      ring.Unlink(skb, k);
      if sendHead == skb {
        sendHead := null;
      }
      s := Next(s, Event.Fault(k));
    }

    /** serval_tcp_write_queue_purge frees the packets in order. It leaves the send head alone, so
        that is right afterwards exactly when nothing was waiting to be sent. */
    method Purge() returns (freed: seq<Skb>)
      requires Valid()
      modifies this`s, ring, ring.head, ring.q
      ensures ring.Valid() && ring.q == [] && freed == old(s.q)
      ensures s == old(s).(q := [], sent := 0)
      ensures Valid() <==> old(s.sent == |s.q|)
    {
      freed := ring.Purge();
      s := s.(q := [], sent := 0);
    }
  }

  /** A packet added to a new queue and unlinked: the ring is empty and the send head still points to it. */
  method UnlinkSendHead() returns (wq: Queue, x: Skb)
    ensures wq.ring.Valid() && wq.ring.q == [] && wq.sendHead == x && !wq.Valid()
  {
    wq := new Queue();
    x := new Skb();
    wq.AddTail(x);
    wq.Unlink(x);
  }
}
