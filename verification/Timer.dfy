/** The timer queue of `src/common/timer.c`, a heap of deadlines, and the timespec
    arithmetic of `include/common/timer.h`. The clock is a parameter. */
module Timer {
  import opened Wrappers
  import opened Division
  import opened HeapOrder
  import opened Heap

  /** A timespec as nanoseconds. */
  function Ns(t: Timespec): int {
    t.sec * NSEC_PER_SEC + t.nsec
  }

  predicate Normal(t: Timespec) {
    0 <= t.nsec < NSEC_PER_SEC
  }

  /** timespec_normalize */
  function Normalize(t: Timespec): Timespec {
    if t.nsec >= NSEC_PER_SEC then Timespec(t.sec + 1, t.nsec - NSEC_PER_SEC)
    else if t.nsec < 0 then Timespec(t.sec - 1, t.nsec + NSEC_PER_SEC)
    else t
  }

  /** timespec_add_nsec, with C's division. */
  function AddNsec(t: Timespec, nsec: int): Timespec {
    Normalize(Timespec(t.sec + TruncDiv(nsec, NSEC_PER_SEC), t.nsec + TruncMod(nsec, NSEC_PER_SEC)))
  }

  /** timespec_add */
  function Add(a: Timespec, b: Timespec): Timespec {
    Normalize(Timespec(a.sec + b.sec, a.nsec + b.nsec))
  }

  /** timespec_sub */
  function Sub(a: Timespec, b: Timespec): Timespec {
    Normalize(Timespec(a.sec - b.sec, a.nsec - b.nsec))
  }

  /** timespec_lt */
  predicate Before(a: Timespec, b: Timespec) {
    a.sec < b.sec || (a.sec == b.sec && a.nsec < b.nsec)
  }

  /** One normalisation step keeps the value, and it is enough exactly within one second either way. */
  lemma NormalizeOnce(t: Timespec)
    ensures Ns(Normalize(t)) == Ns(t)
    ensures Normal(Normalize(t)) <==> -NSEC_PER_SEC <= t.nsec < 2 * NSEC_PER_SEC
  {
  }

  /** On normalised operands it always is enough. */
  lemma ArithmeticIsExact(a: Timespec, b: Timespec, nsec: int)
    requires Normal(a) && Normal(b)
    ensures Normal(AddNsec(a, nsec)) && Ns(AddNsec(a, nsec)) == Ns(a) + nsec
    ensures Normal(Add(a, b)) && Ns(Add(a, b)) == Ns(a) + Ns(b)
    ensures Normal(Sub(a, b)) && Ns(Sub(a, b)) == Ns(a) - Ns(b)
  {
    TruncAddsUp(nsec, NSEC_PER_SEC);
  }

  /** The field-by-field comparison orders normalised times by their value. */
  lemma BeforeIsLess(a: Timespec, b: Timespec)
    requires Normal(a) && Normal(b)
    ensures Before(a, b) <==> Ns(a) < Ns(b)
  {
  }

  lemma BeforeIsOrder()
    ensures StrictWeak(Before)
  {
  }

  /** Timers in heap order, all their deadlines normalised. */
  ghost predicate Due(s: seq<Item<Timespec>>) {
    && Ordered(Before, s)
    && forall x :: x in s ==> Normal(x.key)
  }

  ghost predicate Ready(h: Heap<Timespec>)
    reads h, h.slots
  {
    h.Valid() && h.lt == Before && Due(h.items)
  }

  lemma DueInsert(s: seq<Item<Timespec>>, x: Item<Timespec>)
    requires Due(s) && Normal(x.key) && x !in s
    ensures Due(Inserted(Before, s, x)) && multiset(Inserted(Before, s, x)) == multiset(s) + multiset{x}
    ensures Inserted(Before, s, x)[0] == x <==> forall y :: y in s ==> Ns(x.key) < Ns(y.key)
  {
    BeforeIsOrder();
    InsertedIs(Before, s, x);
    InsertedFirst(Before, s, x);
    forall y | y in s ensures Lt(Before, x, y) <==> Ns(x.key) < Ns(y.key) {
      BeforeIsLess(x.key, y.key);
    }
    var r := Inserted(Before, s, x);
    forall y | y in r ensures Normal(y.key) {
      InsertedHolds(Before, s, x, y);
    }
    if r[0] != x {
      var j :| 0 <= j < |s| && !Lt(Before, x, s[j]);
      assert s[j] in s;
    }
  }

  lemma DueRemove(s: seq<Item<Timespec>>)
    requires Due(s) && s != [] && Distinct(s)
    ensures Due(Removed(Before, s, 0)) && multiset(Removed(Before, s, 0)) == multiset(s) - multiset{s[0]}
    ensures forall y :: y in s ==> Ns(s[0].key) <= Ns(y.key)
    ensures forall y :: y in Removed(Before, s, 0) ==> y in s
  {
    BeforeIsOrder();
    RemovedOrders(Before, s, 0);
    RemovedPermutes(Before, s, 0);
    var r := Removed(Before, s, 0);
    forall y | y in r ensures y in s && Normal(y.key) {
      RemovedHolds(Before, s, 0, y);
    }
    forall y | y in s ensures Ns(s[0].key) <= Ns(y.key) {
      var j :| 0 <= j < |s| && s[j] == y;
      FrontIsLeast(Before, s, j);
      BeforeIsLess(y.key, s[0].key);
    }
  }

  lemma DueDrained(s: seq<Item<Timespec>>)
    requires Due(s)
    ensures var d := Drained(Before, s);
            && multiset(d) == multiset(s)
            && forall i, j :: 0 <= i < j < |d| ==> Ns(d[i].key) <= Ns(d[j].key)
  {
    var d := Drained(Before, s);
    BeforeIsOrder();
    DrainedPermutes(Before, s);
    DrainedSorts(Before, s);
    forall i, j | 0 <= i < j < |d| ensures Ns(d[i].key) <= Ns(d[j].key) {
      assert d[i] in multiset(s) && d[j] in multiset(s);
      BeforeIsLess(d[j].key, d[i].key);
    }
  }

  /** The deadline that timer_mod gives a timer whose own `expires` field holds `own`: the new
      value is stored only in a timer that is scheduled. */
  function Deadline(now: Timespec, scheduled: bool, own: int, expires: int): Timespec {
    AddNsec(now, (if scheduled then expires else own) * 1000)
  }

  /** So timer_mod honours its argument exactly for a scheduled timer or an unchanged value. */
  lemma DeadlineIsAsked(now: Timespec, scheduled: bool, own: int, expires: int)
    requires Normal(now)
    ensures Normal(Deadline(now, scheduled, own, expires))
    ensures Ns(Deadline(now, scheduled, own, expires)) == Ns(now) + 1000 * expires <==> scheduled || own == expires
  {
    ArithmeticIsExact(now, now, (if scheduled then expires else own) * 1000);
  }

  /** timer_add for a timer that is not scheduled. The signal that wakes the main thread is raised,
      by another thread, exactly when the new deadline is before all the others. */
  method Schedule(h: Heap<Timespec>, now: Timespec, expires: int, memory: bool, otherThread: bool)
    returns (t: Item<Timespec>, ok: bool, raised: bool)
    requires Ready(h) && Normal(now)
    modifies h, h.slots, h.repr`index
    ensures fresh(t) && Normal(t.key) && Ns(t.key) == Ns(now) + 1000 * expires
    ensures Ready(h) && (h.slots == old(h.slots) || fresh(h.slots))
    ensures ok <==> memory || old(h.size < h.slots.Length)
    ensures !ok ==> h.items == old(h.items) && !raised && !t.active
    ensures ok ==> multiset(h.items) == multiset(old(h.items)) + multiset{t} && t.active
    ensures ok ==> (raised <==> otherThread && forall x :: x in old(h.items) ==> Ns(t.key) < Ns(x.key))
  {
    DeadlineIsAsked(now, false, expires, expires);
    t := new Item(Deadline(now, false, expires, expires));
    DueInsert(h.items, t);
    ok := h.Insert(t, memory);
    raised := ok && otherThread && t.index == 0;
  }

  /** timer_next_timeout_timespec: how long until the least deadline, or zero if it has passed. */
  method NextTimeout(h: Heap<Timespec>, now: Timespec) returns (found: bool, timeout: Timespec)
    requires Ready(h) && Normal(now)
    ensures found <==> h.items != []
    ensures Normal(timeout)
    ensures found ==> exists x :: x in h.items && (forall y :: y in h.items ==> Ns(x.key) <= Ns(y.key))
                                  && Ns(timeout) == if Ns(x.key) < Ns(now) then 0 else Ns(x.key) - Ns(now)
  {
    if h.size == 0 {
      return false, Timespec(0, 0);
    }
    DueRemove(h.items);
    var front := h.slots[0];
    assert front in h.items;
    ArithmeticIsExact(front.key, now, 0);
    timeout := Sub(front.key, now);
    if timeout.sec < 0 {
      timeout := Timespec(0, 0);
    }
    found := true;
  }

  /** timer_handle_timeout up to the callback, which gets the timer returned. */
  method HandleTimeout(h: Heap<Timespec>) returns (t: Item?<Timespec>)
    requires Ready(h)
    modifies h`size, h`items, h`repr, h.slots, h.repr
    ensures Ready(h) && (t == null <==> old(h.items) == [])
    ensures t == null ==> h.items == []
    ensures t != null ==> multiset(old(h.items)) == multiset(h.items) + multiset{t} && !t.active
    ensures t != null ==> forall x :: x in h.items ==> Ns(t.key) <= Ns(x.key)
  {
    if h.size == 0 {
      return null;
    }
    DueRemove(h.items);
    t := h.Remove(0);
    assert t in multiset(old(h.items));
  }

  /** heap_remove_first */
  method RemoveFirst(h: Heap<Timespec>) returns (t: Item<Timespec>)
    requires Ready(h) && h.items != []
    modifies h`size, h`items, h`repr, h.slots, h.repr
    ensures Ready(h) && h.slots == old(h.slots) && h.size == old(h.size) - 1
    ensures h.repr == old(h.repr) - {t} && !t.active
    ensures Drained(Before, old(h.items)) == [t] + Drained(Before, h.items)
  {
    DueRemove(h.items);
    t := h.Remove(0);
  }

  /** The loop of timer_list_destroy. */
  method Drain(h: Heap<Timespec>) returns (destroyed: seq<Item<Timespec>>)
    requires Ready(h)
    modifies h`size, h`items, h`repr, h.slots, h.repr
    ensures Ready(h) && h.items == [] && destroyed == Drained(Before, old(h.items))
    ensures forall x :: x in destroyed ==> !x.active
  {
    destroyed := [];
    while h.size != 0
      invariant Ready(h) && h.repr <= old(h.repr) && h.slots == old(h.slots)
      invariant destroyed + Drained(Before, h.items) == Drained(Before, old(h.items))
      invariant forall i :: 0 <= i < |destroyed| ==> !destroyed[i].active && destroyed[i] !in h.repr
      decreases h.size
    {
      var t := RemoveFirst(h);
      ConcatAssoc(destroyed, [t], Drained(Before, h.items));
      destroyed := destroyed + [t];
    }
  }

  /** timer_list_destroy: every timer goes once, by nondecreasing deadline. */
  method DestroyAll(h: Heap<Timespec>) returns (destroyed: seq<Item<Timespec>>)
    requires Ready(h)
    modifies h`size, h`items, h`repr, h.slots, h.repr
    ensures Ready(h) && h.items == []
    ensures multiset(destroyed) == multiset(old(h.items))
    ensures forall i, j :: 0 <= i < j < |destroyed| ==> Ns(destroyed[i].key) <= Ns(destroyed[j].key)
    ensures forall x :: x in destroyed ==> !x.active
  {
    DueDrained(h.items);
    destroyed := Drain(h);
  }

  /** Taking out slot `k` keeps timers in heap order: the slot is the first or the last, or the last
      timer is not due before the one above the slot. */
  predicate KeepsOrder(s: seq<Item<Timespec>>, k: nat)
    requires k < |s|
  {
    k == 0 || k == |s| - 1 || !Before(s[|s| - 1].key, s[Up(k)].key)
  }

  lemma DueWithout(s: seq<Item<Timespec>>, k: nat)
    requires Due(s) && k < |s| && Distinct(s)
    ensures Due(Removed(Before, s, k)) <==> KeepsOrder(s, k)
  {
    BeforeIsOrder();
    RemovedOrders(Before, s, k);
    forall y | y in Removed(Before, s, k) ensures Normal(y.key) {
      RemovedHolds(Before, s, k, y);
    }
  }

  /** timer_del: whatever timer is in the slot that the index names is taken out, and no other. That is
      the timer asked for exactly when its index is right, and the queue stays in order exactly when
      the slot was free to take. */
  method Cancel(h: Heap<Timespec>, t: Item<Timespec>) returns (removed: Item?<Timespec>)
    requires h.Valid()
    modifies h`size, h`items, h`repr, h.slots, h.repr
    ensures h.Valid()
    ensures removed == if old(t.index < h.size) then old(h.items[t.index]) else null
    ensures h.items == if old(t.index < h.size) then Removed(h.lt, old(h.items), old(t.index)) else old(h.items)
    ensures removed != null ==> !removed.active && multiset(h.items) == multiset(old(h.items)) - multiset{removed}
    ensures forall x :: x in old(h.repr) && x != removed ==> x.active == old(x.active)
    ensures t in old(h.items) && t !in h.items <==> old(t.index < h.size && h.items[t.index] == t)
    ensures old(Ready(h)) ==> (Ready(h) <==> old(t.index < h.size ==> KeepsOrder(h.items, t.index)))
  {
    if t.index < h.size {
      RemovedHolds(h.lt, h.items, t.index, t);
      RemovedPermutes(h.lt, h.items, t.index);
      if Ready(h) {
        DueWithout(h.items, t.index);
      }
    }
    removed := h.Remove(t.index);
  }

  /** timer_del with its signal: another thread wakes the main one exactly for index zero, and so always when
      the front of the queue has changed. */
  method CancelAndSignal(h: Heap<Timespec>, t: Item<Timespec>, otherThread: bool)
    returns (removed: Item?<Timespec>, raised: bool)
    requires h.Valid()
    modifies h`size, h`items, h`repr, h.slots, h.repr
    ensures h.Valid()
    ensures h.items == if old(t.index < h.size) then Removed(h.lt, old(h.items), old(t.index)) else old(h.items)
    ensures removed == if old(t.index < h.size) then old(h.items[t.index]) else null
    ensures raised <==> otherThread && old(t.index) == 0
    ensures otherThread && old(h.items) != [] && (h.items == [] || h.items[0] != old(h.items)[0]) ==> raised
  {
    var index := t.index;
    if 0 < index < h.size - 1 {
      SiftDownTop(h.lt, Filled(h.items, index), index);
    }
    removed := Cancel(h, t);
    raised := index == 0 && otherThread;
  }

  /** timer_del of a timer that is not scheduled and has index zero: one that timer_init has cleared, that
      fired, or that was cancelled before. The next timer due is taken out in its place. */
  method CancelIdle(h: Heap<Timespec>, t: Item<Timespec>) returns (removed: Item?<Timespec>)
    requires Ready(h) && t !in h.items && t.index == 0
    modifies h`size, h`items, h`repr, h.slots, h.repr
    ensures Ready(h) && removed == if old(h.items) == [] then null else old(h.items)[0]
    ensures removed == null ==> h.items == []
    ensures removed != null ==> removed != t && !removed.active && h.items == Removed(Before, old(h.items), 0)
    ensures removed != null ==> multiset(h.items) == multiset(old(h.items)) - multiset{removed}
    ensures removed != null ==> forall x :: x in h.items ==> Ns(removed.key) <= Ns(x.key)
  {
    if h.items != [] {
      DueRemove(h.items);
    }
    removed := Cancel(h, t);
  }

  lemma FrontTwice(s: seq<Item<Timespec>>)
    requires Due(s) && s != [] && Distinct(s)
    ensures var r := Removed(Before, s, 0);
            && Due(r) && s[0] !in r && multiset(r) == multiset(s) - multiset{s[0]}
            && (r != [] ==> r[0] in s && r[0] != s[0] && r[0] !in Removed(Before, r, 0))
  {
    var r := Removed(Before, s, 0);
    DueRemove(s);
    RemovedHolds(Before, s, 0, s[0]);
    if r != [] {
      SiftDownDistinct(Before, Filled(s, 0), 0);
      RemovedHolds(Before, s, 0, r[0]);
      RemovedHolds(Before, r, 0, r[0]);
    }
  }

  /** timer_handle_timeout and then timer_del of the timer that fired, as when a registration whose
      timeout has run is deleted. */
  method FireThenCancelFired(h: Heap<Timespec>) returns (t: Item<Timespec>, removed: Item?<Timespec>)
    requires Ready(h) && h.items != []
    modifies h`size, h`items, h`repr, h.slots, h.repr
    ensures Ready(h) && t == old(h.items)[0] && (removed == null <==> |old(h.items)| == 1)
    ensures removed != null ==> removed in old(h.items) && removed != t && removed !in h.items && !removed.active
    ensures removed != null ==> forall x :: x in h.items ==> Ns(removed.key) <= Ns(x.key)
    ensures removed != null ==> multiset(h.items) == multiset(old(h.items)) - multiset{t} - multiset{removed}
  {
    FrontTwice(h.items);
    t := h.Remove(0);
    removed := CancelIdle(h, t);
    assert removed != null ==> h.items == Removed(Before, Removed(Before, old(h.items), 0), 0);
  }

  /** timer_del twice: the second call takes out whatever timer is now in front. */
  method CancelTwice(h: Heap<Timespec>, t: Item<Timespec>) returns (first: Item?<Timespec>, second: Item?<Timespec>)
    requires h.Valid() && t.index < h.size && h.items[t.index] == t
    modifies h`size, h`items, h`repr, h.slots, h.repr
    ensures h.Valid() && first == t
    ensures second == if |old(h.items)| == 1 then null else Removed(h.lt, old(h.items), old(t.index))[0]
    ensures second == null ==> h.items == []
    ensures second != null ==> second != t
    ensures second != null ==> multiset(h.items) == multiset(old(h.items)) - multiset{t} - multiset{second}
  {
    ghost var s, k := h.items, t.index;
    RemovedPermutes(h.lt, s, k);
    RemovedHolds(h.lt, s, k, t);
    first := h.Remove(t.index);
    second := Cancel(h, t);
  }

  // ---------- Cancelling a timer whose index is stale ----------

  /** The timer that goes stale when slot `k` is taken out: the last one, if it fills the slot and stays. */
  ghost predicate GoesStale(lt: Less<Timespec>, s: seq<Item<Timespec>>, k: nat, t: Item<Timespec>)
    requires k < |s|
  {
    Stays(lt, s, k) && t == s[|s| - 1]
  }

  /** heap_remove of any slot and then at once timer_del of a timer still scheduled, from a heap whose
      indices are right. The cancellation works unless that timer went stale: then it changes nothing,
      and the timer stays scheduled. */
  method RemoveThenCancel(h: Heap<Timespec>, k: nat, t: Item<Timespec>)
    returns (gone: Item?<Timespec>, removed: Item?<Timespec>)
    requires h.Valid() && h.IndexBut(h.size) && k < h.size && t in h.items && t != h.items[k]
    modifies h`size, h`items, h`repr, h.slots, h.repr
    ensures h.Valid() && gone == old(h.items)[k]
    ensures var stale := old(GoesStale(h.lt, h.items, k, t));
            && (removed == if stale then null else t)
            && (t in h.items <==> stale)
            && multiset(h.items)
               == multiset(old(h.items)) - multiset{gone} - (if stale then multiset{} else multiset{t})
  {
    RemovedPermutes(h.lt, h.items, k);
    RemovedHolds(h.lt, h.items, k, t);
    RemovedTop(h.lt, h.items, k);
    gone := h.Remove(k);
    assert t in h.items;
    removed := Cancel(h, t);
  }

  /** timer_handle_timeout and then timer_del. */
  method FireThenCancel(h: Heap<Timespec>, t: Item<Timespec>) returns (fired: Item?<Timespec>, removed: Item?<Timespec>)
    requires h.Valid() && h.IndexBut(h.size) && t in h.items && t != h.items[0]
    modifies h`size, h`items, h`repr, h.slots, h.repr
    ensures h.Valid() && fired == old(h.items)[0]
    ensures var stale := old(GoesStale(h.lt, h.items, 0, t));
            && (removed == if stale then null else t)
            && (t in h.items <==> stale)
            && multiset(h.items)
               == multiset(old(h.items)) - multiset{fired} - (if stale then multiset{} else multiset{t})
  {
    fired, removed := RemoveThenCancel(h, 0, t);
  }

  /** timer_del of two timers. */
  method CancelThenCancel(h: Heap<Timespec>, u: Item<Timespec>, t: Item<Timespec>)
    returns (first: Item?<Timespec>, second: Item?<Timespec>)
    requires h.Valid() && h.IndexBut(h.size) && u in h.items && t in h.items && u != t
    modifies h`size, h`items, h`repr, h.slots, h.repr
    ensures h.Valid() && first == u && old(u.index < |h.items|)
    ensures var stale := old(GoesStale(h.lt, h.items, u.index, t));
            && (second == if stale then null else t)
            && (t in h.items <==> stale)
            && multiset(h.items) == multiset(old(h.items)) - multiset{u} - (if stale then multiset{} else multiset{t})
  {
    first, second := RemoveThenCancel(h, u.index, t);
  }

  /** Where a timer in slot `k` is after another one was added: elsewhere exactly when the new one
      passed it, and the last slot is never where it stayed. */
  lemma StaleAfterInsert(lt: Less<Timespec>, r: seq<Item<Timespec>>, k: nat, d: Item<Timespec>) returns (j: nat)
    requires k < |r| && Distinct(r) && d !in r
    ensures var q := Inserted(lt, r, d);
            && j < |q| == |r| + 1 && q[j] == r[k] && multiset(q) == multiset(r) + multiset{d}
            && (j == k <==> !Passes(lt, r + [d], d, |r|, k))
            && (j < |r| && q[j] == r[j] <==> j == k)
  {
    var q := Inserted(lt, r, d);
    SiftUpPermutes(lt, r + [d], |r|);
    InsertedHolds(lt, r, d, r[k]);
    SiftUpIs(lt, r + [d], |r|, k);
    if q[k] == r[k] {
      j := k;
    } else {
      j :| 0 <= j < |q| && q[j] == r[k];
    }
  }

  /** timer_add of a new timer and then timer_del of one whose index names the slot after the last: the
      timer is taken out exactly when the new one passed it on its way up, so that it moved. */
  method AddThenCancel(h: Heap<Timespec>, k: nat, d: Item<Timespec>)
    returns (t: Item<Timespec>, removed: Item?<Timespec>)
    requires h.Valid() && k < h.size && h.items[k].index == h.size && d !in h.items
    modifies h, h.slots, h.repr, d
    ensures h.Valid() && t == old(h.items)[k] && removed != null
    ensures var passed := Passes(h.lt, old(h.items) + [d], d, |old(h.items)|, k);
            && (removed == t <==> passed)
            && (t in h.items <==> !passed)
    ensures multiset(h.items) == multiset(old(h.items)) + multiset{d} - multiset{removed}
  {
    t := h.slots[k];
    ghost var j := StaleAfterInsert(h.lt, h.items, k, d);
    var _ := h.Insert(d, true);
    assert h.items[j] == t && t.index == if j == k then old(h.size) else j;
    removed := Cancel(h, t);
  }

  /** The same from a heap whose indices are right, taking out slot `k` making a timer stale. */
  method RemoveAddThenCancel(h: Heap<Timespec>, k: nat, d: Item<Timespec>)
    returns (gone: Item?<Timespec>, t: Item<Timespec>, removed: Item?<Timespec>)
    requires h.Valid() && h.IndexBut(h.size) && k < h.size && d !in h.items && Stays(h.lt, h.items, k)
    modifies h, h.slots, h.repr, d
    ensures h.Valid() && removed != null && gone == old(h.items)[k] && t == old(h.items)[|old(h.items)| - 1]
    ensures var r := Removed(h.lt, old(h.items), k);
            var passed := Passes(h.lt, r + [d], d, |r|, k);
            && (removed == t <==> passed)
            && (t in h.items <==> !passed)
    ensures multiset(h.items) == multiset(old(h.items)) - multiset{gone} + multiset{d} - multiset{removed}
  {
    RemovedPermutes(h.lt, h.items, k);
    RemovedHolds(h.lt, h.items, k, d);
    RemovedTop(h.lt, h.items, k);
    gone := h.Remove(k);
    t, removed := AddThenCancel(h, k, d);
  }

  /** In a queue in order, the new timer passes those due after it that are above its first slot. */
  lemma PassesInOrder(r: seq<Item<Timespec>>, k: nat, d: Item<Timespec>)
    requires Due(r) && k < |r| && Normal(d.key)
    ensures Passes(Before, r + [d], d, |r|, k) <==> Above(k, |r|) && Ns(d.key) < Ns(r[k].key)
    ensures k == 0 ==> (Passes(Before, r + [d], d, |r|, k) <==> forall x :: x in r ==> Ns(d.key) < Ns(x.key))
  {
    var s := r + [d];
    BeforeIsOrder();
    BeforeIsLess(d.key, r[k].key);
    PassesAbove(Before, s, d, |r|, k);
    if Passes(Before, s, d, |r|, k) {
      PassedIsAfter(Before, s, d, |r|, k);
    } else if Above(k, |r|) && Ns(d.key) < Ns(r[k].key) {
      forall c {:trigger OkAt(Before, s, c)} | k < c < |s| && c <= Up(|r|) && Above(c, Up(|r|))
        ensures OkAt(Before, s, c)
      {
        assert OkAt(Before, r, c);
      }
      PassesWhen(Before, s, d, |r|, k);
    }
    if k == 0 {
      AboveFront(|r|);
      forall x | x in r ensures Ns(r[0].key) <= Ns(x.key) {
        var j :| 0 <= j < |r| && r[j] == x;
        FrontIsLeast(Before, r, j);
        BeforeIsLess(x.key, r[0].key);
      }
    }
  }

  /** A timeout, a new timer, and timer_del of the timer that went stale. The cancellation works exactly
      when the new timer is due before all the others; otherwise another timer is taken out in place
      of the one asked for. */
  method FireAddThenCancel(h: Heap<Timespec>, d: Item<Timespec>) returns (t: Item<Timespec>, removed: Item?<Timespec>)
    requires Ready(h) && h.IndexBut(h.size) && h.items != [] && d !in h.items && Normal(d.key)
    requires Stays(Before, h.items, 0)
    modifies h, h.slots, h.repr, d
    ensures h.Valid() && removed != null && t == old(h.items)[|old(h.items)| - 1]
    ensures var first := forall x :: x in Removed(Before, old(h.items), 0) ==> Ns(d.key) < Ns(x.key);
            && (removed == t <==> first)
            && (t in h.items <==> !first)
    ensures multiset(h.items)
            == multiset(old(h.items)) - multiset{old(h.items)[0]} + multiset{d} - multiset{removed}
  {
    DueRemove(h.items);
    PassesInOrder(Removed(Before, h.items, 0), 0, d);
    var gone: Item?<Timespec>;
    gone, t, removed := RemoveAddThenCancel(h, 0, d);
  }

  /** A cancellation in the place of the timeout, in a queue that it leaves in order. */
  method CancelAddThenCancel(h: Heap<Timespec>, u: Item<Timespec>, d: Item<Timespec>)
    returns (t: Item<Timespec>, removed: Item?<Timespec>)
    requires Ready(h) && h.IndexBut(h.size) && u in h.items && d !in h.items && Normal(d.key)
    requires Stays(Before, h.items, u.index) && KeepsOrder(h.items, u.index)
    modifies h, h.slots, h.repr, d
    ensures h.Valid() && removed != null && t == old(h.items)[|old(h.items)| - 1]
    ensures var passed := Above(old(u.index), |old(h.items)| - 1) && Ns(d.key) < Ns(t.key);
            && (removed == t <==> passed)
            && (t in h.items <==> !passed)
    ensures multiset(h.items) == multiset(old(h.items)) - multiset{u} + multiset{d} - multiset{removed}
  {
    DueWithout(h.items, u.index);
    RemovedTop(Before, h.items, u.index);
    PassesInOrder(Removed(Before, h.items, u.index), u.index, d);
    var gone: Item?<Timespec>;
    gone, t, removed := RemoveAddThenCancel(h, u.index, d);
  }

  // ---------- Re-arming a scheduled timer ----------

  /** A timer gets a new deadline where it stands: `u` is `t` with that deadline. */
  function Renewed(s: seq<Item<Timespec>>, t: Item<Timespec>, u: Item<Timespec>): (r: seq<Item<Timespec>>)
    ensures |r| == |s| && forall i :: 0 <= i < |s| ==> r[i] == if s[i] == t then u else s[i]
  {
    seq(|s|, i requires 0 <= i < |s| => if s[i] == t then u else s[i])
  }

  /** timer_del with the index it finds in the timer. */
  function AfterDel(s: seq<Item<Timespec>>, index: nat): seq<Item<Timespec>> {
    if index < |s| then Removed(Before, s, index) else s
  }

  /** The queue after timer_mod of a scheduled timer: timer_del of the slot its index names, then the new
      deadline, then heap_insert. */
  function Rearmed(s: seq<Item<Timespec>>, index: nat, t: Item<Timespec>, u: Item<Timespec>): seq<Item<Timespec>> {
    Inserted(Before, Renewed(AfterDel(s, index), t, u), u)
  }

  lemma RenewedCount(s: seq<Item<Timespec>>, t: Item<Timespec>, u: Item<Timespec>)
    requires Distinct(s) && u !in s
    ensures multiset(Renewed(s, t, u))[u] == if t in s then 1 else 0
  {
    var r := Renewed(s, t, u);
    if t in s {
      var j :| 0 <= j < |s| && s[j] == t;
      assert Distinct(r) && r[j] == u;
      CountsOnce(r, j);
    } else {
      assert u !in r;
    }
  }

  lemma RearmedNormal(s: seq<Item<Timespec>>, index: nat, t: Item<Timespec>, u: Item<Timespec>)
    requires Due(s) && Distinct(s) && Normal(u.key)
    ensures forall y :: y in Rearmed(s, index, t, u) ==> Normal(y.key)
  {
    var r := AfterDel(s, index);
    forall y | y in Rearmed(s, index, t, u) ensures Normal(y.key) {
      InsertedHolds(Before, Renewed(r, t, u), u, y);
      if y != u {
        assert y in r;
        if index < |s| {
          RemovedHolds(Before, s, index, y);
        }
      }
    }
  }

  lemma RearmedCount(s: seq<Item<Timespec>>, index: nat, t: Item<Timespec>, u: Item<Timespec>)
    requires Distinct(s) && t in s && u !in s
    ensures Distinct(AfterDel(s, index)) && u !in AfterDel(s, index)
    ensures t in AfterDel(s, index) <==> !(index < |s| && s[index] == t)
    ensures multiset(Rearmed(s, index, t, u))[u] == if index < |s| && s[index] == t then 1 else 2
  {
    var r := AfterDel(s, index);
    if index < |s| {
      SiftDownDistinct(Before, Filled(s, index), index);
      RemovedHolds(Before, s, index, t);
      RemovedHolds(Before, s, index, u);
    }
    RenewedCount(r, t, u);
    SiftUpPermutes(Before, Renewed(r, t, u) + [u], |r|);
  }

  lemma RearmedStale(s: seq<Item<Timespec>>, index: nat, t: Item<Timespec>, u: Item<Timespec>, j: nat)
    requires Due(s) && Distinct(AfterDel(s, index)) && j < |AfterDel(s, index)| && AfterDel(s, index)[j] == t
    ensures Ordered(Before, Rearmed(s, index, t, u)) <==> Settles(Before, AfterDel(s, index), j, u)
  {
    var r := AfterDel(s, index);
    BeforeIsOrder();
    if index < |s| {
      RemovedOrdersBut(Before, s, index);
      if 0 < index < |r| && Above(Up(index), |r|) {
        BreaksAside(Before, s, index);
      }
    }
    assert Renewed(r, t, u) == r[j := u];
    RenewInsertOrders(Before, r, index, j, u);
  }

  /** A timer that is armed again is in the queue once exactly when its index was right; with a stale
      index it is in twice. With the right index the queue stays in order exactly when the slot was
      free to take; with a stale one, exactly when the new deadline settles where the timer stands. */
  lemma RearmedOnce(s: seq<Item<Timespec>>, index: nat, t: Item<Timespec>, u: Item<Timespec>)
    requires Due(s) && Distinct(s) && t in s && u !in s && Normal(u.key)
    ensures multiset(Rearmed(s, index, t, u))[u] == if index < |s| && s[index] == t then 1 else 2
    ensures index < |s| && s[index] == t ==> (Due(Rearmed(s, index, t, u)) <==> KeepsOrder(s, index))
    ensures !(index < |s| && s[index] == t) ==>
              var r := AfterDel(s, index);
              t in r && forall j :: 0 <= j < |r| && r[j] == t ==>
                (Due(Rearmed(s, index, t, u)) <==> Settles(Before, r, j, u))
  {
    var r := AfterDel(s, index);
    RearmedCount(s, index, t, u);
    RearmedNormal(s, index, t, u);
    if index < |s| && s[index] == t {
      assert Renewed(r, t, u) == r;
      BeforeIsOrder();
      RemovedOrders(Before, s, index);
      RemoveInsertOrders(Before, s, index, u);
    } else {
      forall j | 0 <= j < |r| && r[j] == t
        ensures Due(Rearmed(s, index, t, u)) <==> Settles(Before, r, j, u)
      {
        RearmedStale(s, index, t, u, j);
      }
    }
  }

  lemma RearmedRight(s: seq<Item<Timespec>>, k: nat, u: Item<Timespec>)
    requires Due(s) && Distinct(s) && k < |s| && u !in s && Normal(u.key)
    ensures u !in Removed(Before, s, k)
    ensures var q := Rearmed(s, k, s[k], u);
            && q == Inserted(Before, Removed(Before, s, k), u)
            && multiset(q) == multiset(s) - multiset{s[k]} + multiset{u}
            && (Due(q) <==> KeepsOrder(s, k))
  {
    var r := Removed(Before, s, k);
    RearmedOnce(s, k, s[k], u);
    RemovedPermutes(Before, s, k);
    RemovedHolds(Before, s, k, s[k]);
    RemovedHolds(Before, s, k, u);
    assert Renewed(r, s[k], u) == r;
    SiftUpPermutes(Before, r + [u], |r|);
  }

  /** timer_mod of a scheduled timer on the heap itself, its index being right; `u` is the timer with the
      new deadline. */
  method Rearm(h: Heap<Timespec>, t: Item<Timespec>, u: Item<Timespec>)
    requires Ready(h) && t.index < h.size && h.items[t.index] == t && u !in h.items && Normal(u.key)
    modifies h, h.slots, h.repr, u
    ensures h.Valid() && h.items == Rearmed(old(h.items), old(t.index), t, u)
    ensures multiset(h.items) == multiset(old(h.items)) - multiset{t} + multiset{u} && u.active
    ensures Ready(h) <==> old(KeepsOrder(h.items, t.index))
  {
    RearmedRight(h.items, t.index, u);
    var _ := h.Remove(t.index);
    var _ := h.Insert(u, true);
  }

  // ---------- Queues in which these happen ----------

  /** Three timers: the first fires, and the third fills its slot and stays there. */
  lemma StaleExample(a: Item<Timespec>, b: Item<Timespec>, c: Item<Timespec>)
    requires a.key == Timespec(1, 0) && b.key == Timespec(3, 0) && c.key == Timespec(2, 0)
    ensures Due([a, b, c]) && GoesStale(Before, [a, b, c], 0, c) && Removed(Before, [a, b, c], 0) == [c, b]
  {
    var s := [a, b, c];
    assert Filled(s, 0) == [c, b];
    forall j {:trigger OkAt(Before, s, j)} | 0 < j < |s| ensures OkAt(Before, s, j) {
      assert Up(j) == 0;
    }
  }

  /** The queue of `StaleExample` after the timeout: the stale timer, armed again, is in it twice. */
  lemma RearmedExample(c: Item<Timespec>, b: Item<Timespec>, u: Item<Timespec>)
    requires c.key == Timespec(2, 0) && b.key == Timespec(3, 0) && u.key == Timespec(4, 0)
    ensures multiset(Rearmed([c, b], 2, c, u))[u] == 2
  {
    RearmedOnce([c, b], 2, c, u);
  }

  /** Four timers due one after the other: cancelling the second makes the fourth stale. */
  lemma CancelledExample(a: Item<Timespec>, b: Item<Timespec>, c: Item<Timespec>, d: Item<Timespec>)
    requires a.key == Timespec(1, 0) && b.key == Timespec(2, 0) && c.key == Timespec(3, 0) && d.key == Timespec(4, 0)
    ensures Due([a, b, c, d]) && GoesStale(Before, [a, b, c, d], 1, d) && Removed(Before, [a, b, c, d], 1) == [a, d, c]
  {
    var s := [a, b, c, d];
    assert Filled(s, 1) == [a, d, c];
    forall j {:trigger OkAt(Before, s, j)} | 0 < j < |s| ensures OkAt(Before, s, j) {
      assert Up(1) == 0 && Up(2) == 0 && Up(3) == 1;
    }
  }

  /** Two timers: the first fires and is cancelled, and the second is gone. */
  lemma FiredExample(a: Item<Timespec>, b: Item<Timespec>)
    requires a.key == Timespec(1, 0) && b.key == Timespec(2, 0)
    ensures Due([a, b]) && Removed(Before, [a, b], 0) == [b] && Removed(Before, [b], 0) == []
  {
    var s := [a, b];
    assert Filled(s, 0) == [b];
    forall j {:trigger OkAt(Before, s, j)} | 0 < j < |s| ensures OkAt(Before, s, j) {
      assert Up(j) == 0;
    }
  }
}
