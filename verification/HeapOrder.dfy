/** Binary heaps laid out in a sequence, under a strict order given as a function:
    the values that the array of `src/common/heap.c` goes through. */
module HeapOrder {

  /** A heap item inside the object it schedules; `key` is what the comparison looks at. */
  class Item<K> {
    const key: K
    var index: nat
    var active: bool

    constructor (key: K)
      ensures this.key == key && index == 0 && !active
    {
      this.key, index, active := key, 0, false;
    }
  }

  type Less<!K> = (K, K) -> bool

  /** What heap.c needs of its comparison: a strict weak order. */
  ghost predicate StrictWeak<K(!new)>(lt: Less<K>) {
    && (forall a, b :: lt(a, b) ==> !lt(b, a))
    && (forall a, b, c :: !lt(b, a) && !lt(c, b) ==> !lt(c, a))
  }

  predicate Lt<K>(lt: Less<K>, a: Item<K>, b: Item<K>) {
    lt(a.key, b.key)
  }

  function Up(j: nat): nat {
    if j == 0 then 0 else (j - 1) / 2
  }

  /** The element in slot `j` does not precede the one above it. */
  predicate OkAt<K>(lt: Less<K>, s: seq<Item<K>>, j: nat)
    requires j < |s|
  {
    !Lt(lt, s[j], s[Up(j)])
  }

  /** Nor does it precede the one two above it. */
  predicate KidOk<K>(lt: Less<K>, s: seq<Item<K>>, j: nat)
    requires j < |s|
  {
    !Lt(lt, s[j], s[Up(Up(j))])
  }

  ghost predicate Ordered<K>(lt: Less<K>, s: seq<Item<K>>) {
    forall j {:trigger OkAt(lt, s, j)} :: 0 < j < |s| ==> OkAt(lt, s, j)
  }

  /** In order, except possibly in slot `k`. */
  ghost predicate OrderedBut<K>(lt: Less<K>, s: seq<Item<K>>, k: nat) {
    forall j {:trigger OkAt(lt, s, j)} :: 0 < j < |s| && j != k ==> OkAt(lt, s, j)
  }

  function Swap<K>(s: seq<Item<K>>, i: nat, j: nat): seq<Item<K>>
    requires i < |s| && j < |s|
  {
    s[i := s[j]][j := s[i]]
  }

  lemma SwapPermutes<K>(s: seq<Item<K>>, i: nat, j: nat)
    requires i < |s| && j < |s|
    ensures multiset(Swap(s, i, j)) == multiset(s)
  {
  }

  /** The slot that should be above its two neighbours: `i` or one of its children. */
  function Smallest<K>(lt: Less<K>, s: seq<Item<K>>, i: nat): (m: nat)
    requires i < |s|
    ensures m == i || m == 2 * i + 1 || m == 2 * i + 2
    ensures m < |s|
  {
    var l := 2 * i + 1;
    var best := if l < |s| && Lt(lt, s[l], s[i]) then l else i;
    if l + 1 < |s| && Lt(lt, s[l + 1], s[best]) then l + 1 else best
  }

  lemma SmallestIs<K(!new)>(lt: Less<K>, s: seq<Item<K>>, i: nat)
    requires StrictWeak(lt) && i < |s|
    ensures var m := Smallest(lt, s, i);
            && !Lt(lt, s[i], s[m]) && (m != i ==> Lt(lt, s[m], s[i]))
            && (2 * i + 1 < |s| ==> !Lt(lt, s[2 * i + 1], s[m]))
            && (2 * i + 2 < |s| ==> !Lt(lt, s[2 * i + 2], s[m]))
  {
    var m := Smallest(lt, s, i);
    assert !Lt(lt, s[m], s[m]);
    var l := 2 * i + 1;
    if m == l + 1 {
      assert l < |s|;
    }
  }

  /** heap_heapify */
  function SiftDown<K>(lt: Less<K>, s: seq<Item<K>>, i: nat): (r: seq<Item<K>>)
    ensures |r| == |s|
    decreases |s| - i
  {
    if i >= |s| then s
    else
      var m := Smallest(lt, s, i);
      if m == i then s else SiftDown(lt, Swap(s, i, m), m)
  }

  lemma {:induction false} SiftDownPermutes<K>(lt: Less<K>, s: seq<Item<K>>, i: nat)
    ensures multiset(SiftDown(lt, s, i)) == multiset(s)
    decreases |s| - i
  {
    if i < |s| {
      var m := Smallest(lt, s, i);
      if m != i {
        SwapPermutes(s, i, m);
        SiftDownPermutes(lt, Swap(s, i, m), m);
      }
    }
  }

  /** Ready to sift down from `i`, having started at `k`: only the children of `i`, and slot `k`,
      can be out of order, and below `k` the children of `i` are in order with what is above it. */
  ghost predicate Sinking<K>(lt: Less<K>, s: seq<Item<K>>, i: nat, k: nat) {
    && (forall j {:trigger OkAt(lt, s, j)} :: 0 < j < |s| && Up(j) != i && j != k ==> OkAt(lt, s, j))
    && (i != k ==> forall j {:trigger KidOk(lt, s, j)} :: 0 < j < |s| && Up(j) == i ==> KidOk(lt, s, j))
  }

  lemma {:induction false} SinkStep<K(!new)>(lt: Less<K>, s: seq<Item<K>>, i: nat, k: nat)
    requires StrictWeak(lt) && i < |s| && k <= i && Smallest(lt, s, i) != i && Sinking(lt, s, i, k)
    ensures Sinking(lt, Swap(s, i, Smallest(lt, s, i)), Smallest(lt, s, i), k)
  {
    var m := Smallest(lt, s, i);
    SmallestIs(lt, s, i);
    var t := Swap(s, i, m);
    assert Up(m) == i && OkAt(lt, s, m) <==> !Lt(lt, s[m], s[i]);
    forall j {:trigger OkAt(lt, t, j)} | 0 < j < |t| && Up(j) != m && j != k ensures OkAt(lt, t, j) {
      if Up(j) == i {
        assert j == 2 * i + 1 || j == 2 * i + 2;
      } else {
        assert OkAt(lt, s, j);
        assert j == i ==> KidOk(lt, s, m);
      }
    }
    forall j {:trigger KidOk(lt, t, j)} | 0 < j < |t| && Up(j) == m ensures KidOk(lt, t, j) {
      assert OkAt(lt, s, j);
    }
  }

  /** Sifting down puts everything in order but slot `k`. */
  lemma {:induction false} SiftDownOrders<K(!new)>(lt: Less<K>, s: seq<Item<K>>, i: nat, k: nat)
    requires StrictWeak(lt) && k <= i && Sinking(lt, s, i, k)
    ensures OrderedBut(lt, SiftDown(lt, s, i), k)
    decreases |s| - i
  {
    if i < |s| {
      var m := Smallest(lt, s, i);
      if m == i {
        SmallestIs(lt, s, i);
        forall j {:trigger OkAt(lt, s, j)} | 0 < j < |s| && j != k ensures OkAt(lt, s, j) {
          if Up(j) == i {
            assert j == 2 * i + 1 || j == 2 * i + 2;
          }
        }
      } else {
        SinkStep(lt, s, i, k);
        SiftDownOrders(lt, Swap(s, i, m), m, k);
      }
    } else {
      forall j {:trigger OkAt(lt, s, j)} | 0 < j < |s| && j != k ensures OkAt(lt, s, j) {
        assert Up(j) != i;
      }
    }
  }

  /** Only slots from `i` on change, and slot `i` gets the smallest of its neighbours. */
  lemma {:induction false} SiftDownTop<K>(lt: Less<K>, s: seq<Item<K>>, i: nat)
    requires i < |s|
    ensures SiftDown(lt, s, i)[i] == s[Smallest(lt, s, i)]
    ensures forall j :: 0 <= j < i ==> SiftDown(lt, s, i)[j] == s[j]
    decreases |s| - i
  {
    var m := Smallest(lt, s, i);
    if m != i {
      SiftDownTop(lt, Swap(s, i, m), m);
    }
  }

  /** The loop of heap_insert, seen as exchanges with the parent. */
  function SiftUp<K>(lt: Less<K>, s: seq<Item<K>>, i: nat): (r: seq<Item<K>>)
    requires i < |s|
    ensures |r| == |s|
    decreases i
  {
    if i > 0 && Lt(lt, s[i], s[Up(i)]) then SiftUp(lt, Swap(s, i, Up(i)), Up(i)) else s
  }

  lemma {:induction false} SiftUpPermutes<K>(lt: Less<K>, s: seq<Item<K>>, i: nat)
    requires i < |s|
    ensures multiset(SiftUp(lt, s, i)) == multiset(s)
    decreases i
  {
    if i > 0 && Lt(lt, s[i], s[Up(i)]) {
      SwapPermutes(s, i, Up(i));
      SiftUpPermutes(lt, Swap(s, i, Up(i)), Up(i));
    }
  }

  /** Ready to sift up from `i`. */
  ghost predicate Rising<K>(lt: Less<K>, s: seq<Item<K>>, i: nat) {
    && OrderedBut(lt, s, i)
    && forall j {:trigger KidOk(lt, s, j)} :: 0 < j < |s| && Up(j) == i ==> KidOk(lt, s, j)
  }

  lemma RisingStep<K(!new)>(lt: Less<K>, s: seq<Item<K>>, i: nat)
    requires StrictWeak(lt) && 0 < i < |s| && Rising(lt, s, i) && Lt(lt, s[i], s[Up(i)])
    ensures Rising(lt, Swap(s, i, Up(i)), Up(i))
  {
    var p := Up(i);
    var t := Swap(s, i, p);
    assert !Lt(lt, s[p], s[p]);
    forall j {:trigger OkAt(lt, t, j)} | 0 < j < |t| && j != p ensures OkAt(lt, t, j) {
      if j != i {
        assert OkAt(lt, s, j);
        assert Up(j) == i ==> KidOk(lt, s, j);
      }
    }
    forall j {:trigger KidOk(lt, t, j)} | 0 < j < |t| && Up(j) == p ensures KidOk(lt, t, j) {
      if p > 0 {
        assert OkAt(lt, s, p);
      }
      if j != i {
        assert OkAt(lt, s, j);
      }
    }
  }

  lemma {:induction false} SiftUpOrders<K(!new)>(lt: Less<K>, s: seq<Item<K>>, i: nat)
    requires StrictWeak(lt) && i < |s| && Rising(lt, s, i)
    ensures Ordered(lt, SiftUp(lt, s, i))
    decreases i
  {
    if i > 0 && Lt(lt, s[i], s[Up(i)]) {
      RisingStep(lt, s, i);
      SiftUpOrders(lt, Swap(s, i, Up(i)), Up(i));
    } else {
      forall j {:trigger OkAt(lt, s, j)} | 0 < j < |s| ensures OkAt(lt, s, j) {
      }
    }
  }

  /** The front precedes, or ties with, everything above slot `k` when only `k` is out of order. */
  lemma {:induction false} FrontIsLeastBut<K(!new)>(lt: Less<K>, s: seq<Item<K>>, j: nat, k: nat)
    requires StrictWeak(lt) && OrderedBut(lt, s, k) && j < k && j < |s|
    ensures !Lt(lt, s[j], s[0])
  {
    if j == 0 {
      assert !Lt(lt, s[0], s[0]);
    } else {
      assert OkAt(lt, s, j);
      FrontIsLeastBut(lt, s, Up(j), k);
    }
  }

  /** The front of an ordered heap is least. */
  lemma FrontIsLeast<K(!new)>(lt: Less<K>, s: seq<Item<K>>, j: nat)
    requires StrictWeak(lt) && Ordered(lt, s) && j < |s|
    ensures !Lt(lt, s[j], s[0])
  {
    FrontIsLeastBut(lt, s, j, |s|);
  }

  /** An item rises to the front exactly when it precedes the one there. */
  lemma {:induction false} SiftUpFirst<K(!new)>(lt: Less<K>, s: seq<Item<K>>, i: nat)
    requires StrictWeak(lt) && 0 < i < |s| && Rising(lt, s, i) && s[i] != s[0]
    ensures SiftUp(lt, s, i)[0] == s[i] <==> Lt(lt, s[i], s[0])
    decreases i
  {
    var p := Up(i);
    if !Lt(lt, s[i], s[p]) {
      FrontIsLeastBut(lt, s, p, i);
    } else if p > 0 {
      RisingStep(lt, s, i);
      SiftUpFirst(lt, Swap(s, i, p), p);
    }
  }

  // ---------- Whole operations ----------

  function Inserted<K>(lt: Less<K>, s: seq<Item<K>>, x: Item<K>): seq<Item<K>> {
    SiftUp(lt, s + [x], |s|)
  }

  /** What heap_remove leaves before it sifts: the last item in slot `k`. */
  function Filled<K>(s: seq<Item<K>>, k: nat): (r: seq<Item<K>>)
    requires k < |s|
    ensures |r| == |s| - 1
  {
    s[k := s[|s| - 1]][..|s| - 1]
  }

  /** heap_remove: the last element takes the slot and only sifts down. */
  function Removed<K>(lt: Less<K>, s: seq<Item<K>>, k: nat): (r: seq<Item<K>>)
    requires k < |s|
    ensures |r| == |s| - 1
  {
    SiftDown(lt, Filled(s, k), k)
  }

  lemma AppendedRises<K(!new)>(lt: Less<K>, s: seq<Item<K>>, x: Item<K>)
    requires Ordered(lt, s)
    ensures Rising(lt, s + [x], |s|)
  {
    var t := s + [x];
    forall j {:trigger OkAt(lt, t, j)} | 0 < j < |t| && j != |s| ensures OkAt(lt, t, j) {
      assert OkAt(lt, s, j);
    }
  }

  /** An insertion puts its item in front exactly when it precedes all the others there. */
  lemma InsertedFirst<K(!new)>(lt: Less<K>, s: seq<Item<K>>, x: Item<K>)
    requires StrictWeak(lt) && Ordered(lt, s) && x !in s
    ensures Inserted(lt, s, x)[0] == x <==> forall j :: 0 <= j < |s| ==> Lt(lt, x, s[j])
  {
    if s != [] {
      AppendedRises(lt, s, x);
      SiftUpFirst(lt, s + [x], |s|);
      if Lt(lt, x, s[0]) {
        forall j | 0 <= j < |s| ensures Lt(lt, x, s[j]) {
          FrontIsLeast(lt, s, j);
        }
      }
    }
  }

  lemma InsertedIs<K(!new)>(lt: Less<K>, s: seq<Item<K>>, x: Item<K>)
    requires StrictWeak(lt) && Ordered(lt, s)
    ensures Ordered(lt, Inserted(lt, s, x)) && multiset(Inserted(lt, s, x)) == multiset(s) + multiset{x}
  {
    var t := s + [x];
    AppendedRises(lt, s, x);
    SiftUpOrders(lt, t, |s|);
    SiftUpPermutes(lt, t, |s|);
  }

  lemma FilledPermutes<K>(s: seq<Item<K>>, k: nat)
    requires k < |s|
    ensures multiset(Filled(s, k)) == multiset(s) - multiset{s[k]}
  {
    var last := |s| - 1;
    var t := s[k := s[last]];
    assert t == Filled(s, k) + [s[last]];
    assert multiset(t) == multiset(Filled(s, k)) + multiset{s[last]};
    assert multiset(t) == multiset(s) - multiset{s[k]} + multiset{s[last]};
    assert multiset(Filled(s, k)) == multiset(t) - multiset{s[last]};
  }

  lemma RemovedPermutes<K>(lt: Less<K>, s: seq<Item<K>>, k: nat)
    requires k < |s|
    ensures multiset(Removed(lt, s, k)) == multiset(s) - multiset{s[k]}
  {
    SiftDownPermutes(lt, Filled(s, k), k);
    FilledPermutes(s, k);
  }

  /** After a removal only the slot itself can be out of order. */
  lemma RemovedOrdersBut<K(!new)>(lt: Less<K>, s: seq<Item<K>>, k: nat)
    requires StrictWeak(lt) && Ordered(lt, s) && k < |s|
    ensures OrderedBut(lt, Removed(lt, s, k), k)
  {
    var t := Filled(s, k);
    forall j {:trigger OkAt(lt, t, j)} | 0 < j < |t| && Up(j) != k && j != k ensures OkAt(lt, t, j) {
      assert OkAt(lt, s, j);
    }
    SiftDownOrders(lt, t, k, k);
  }

  /** Removal keeps the order exactly when the element that fills the slot does not precede the
      one above it, which the front slot and the last slot always satisfy. */
  lemma RemovedOrders<K(!new)>(lt: Less<K>, s: seq<Item<K>>, k: nat)
    requires StrictWeak(lt) && Ordered(lt, s) && k < |s|
    ensures Ordered(lt, Removed(lt, s, k)) <==> k == 0 || k == |s| - 1 || !Lt(lt, s[|s| - 1], s[Up(k)])
    ensures 0 < k < |s| - 1 ==> (OkAt(lt, Removed(lt, s, k), k) <==> !Lt(lt, s[|s| - 1], s[Up(k)]))
  {
    var last := |s| - 1;
    var t := Filled(s, k);
    var r := Removed(lt, s, k);
    RemovedOrdersBut(lt, s, k);
    if 0 < k < last {
      SiftDownTop(lt, t, k);
      SmallestIs(lt, t, k);
      var m := Smallest(lt, t, k);
      assert OkAt(lt, s, k);
      if m != k {
        assert OkAt(lt, s, m);
        assert !Lt(lt, s[m], s[Up(k)]);
      }
      assert r[Up(k)] == s[Up(k)] && r[k] == t[m];
      assert OkAt(lt, r, k) <==> !Lt(lt, s[last], s[Up(k)]);
      if OkAt(lt, r, k) {
        forall j {:trigger OkAt(lt, r, j)} | 0 < j < |r| ensures OkAt(lt, r, j) {
        }
      }
    } else {
      forall j {:trigger OkAt(lt, r, j)} | 0 < j < |r| ensures OkAt(lt, r, j) {
      }
    }
  }

  // ---------- A removal and then an insertion ----------

  /** Slot `a` is `j` or on the way from `j` to the front. */
  predicate Above(a: nat, j: nat)
    decreases j
  {
    a == j || (j > 0 && Above(a, Up(j)))
  }

  lemma {:induction false} AboveFront(j: nat)
    ensures Above(0, j)
    decreases j
  {
    if j > 0 {
      AboveFront(Up(j));
    }
  }

  lemma {:induction false} AboveUp(a: nat, j: nat)
    requires Above(a, j)
    ensures Above(Up(a), j)
    decreases j
  {
    if a == j {
      assert j > 0 ==> Above(Up(a), Up(j));
    } else {
      AboveUp(a, Up(j));
    }
  }

  lemma {:induction false} AboveIsLeast<K(!new)>(lt: Less<K>, s: seq<Item<K>>, a: nat, j: nat)
    requires StrictWeak(lt) && Ordered(lt, s) && j < |s| && Above(a, j)
    ensures a <= j && !Lt(lt, s[j], s[a])
    decreases j
  {
    if a == j {
      assert !Lt(lt, s[j], s[j]);
    } else {
      assert OkAt(lt, s, j);
      AboveIsLeast(lt, s, a, Up(j));
    }
  }

  /** Sifting up only touches the slots above its start. */
  lemma {:induction false} SiftUpOff<K>(lt: Less<K>, s: seq<Item<K>>, i: nat, j: nat)
    requires i < |s| && j < |s| && !Above(j, i)
    ensures SiftUp(lt, s, i)[j] == s[j]
    decreases i
  {
    if i > 0 && Lt(lt, s[i], s[Up(i)]) {
      SiftUpOff(lt, Swap(s, i, Up(i)), Up(i), j);
    }
  }

  /** Under a slot that the next insertion comes by, a removal does not break the order. */
  lemma BreaksAside<K(!new)>(lt: Less<K>, s: seq<Item<K>>, k: nat)
    requires StrictWeak(lt) && Ordered(lt, s) && 0 < k < |s| - 1 && Above(Up(k), |s| - 1)
    ensures OkAt(lt, Removed(lt, s, k), k)
  {
    RemovedOrders(lt, s, k);
    AboveIsLeast(lt, s, Up(k), |s| - 1);
  }

  /** An insertion does not mend an order that a removal has broken. */
  lemma RemoveInsertOrders<K(!new)>(lt: Less<K>, s: seq<Item<K>>, k: nat, x: Item<K>)
    requires StrictWeak(lt) && Ordered(lt, s) && k < |s|
    ensures Ordered(lt, Inserted(lt, Removed(lt, s, k), x)) <==> Ordered(lt, Removed(lt, s, k))
  {
    var r := Removed(lt, s, k);
    if Ordered(lt, r) {
      InsertedIs(lt, r, x);
    } else {
      RemovedOrders(lt, s, k);
      if Above(k, |r|) {
        AboveUp(k, |r|);
      }
      if Above(Up(k), |r|) {
        BreaksAside(lt, s, k);
      }
      SiftUpOff(lt, r + [x], |r|, k);
      SiftUpOff(lt, r + [x], |r|, Up(k));
      assert !OkAt(lt, Inserted(lt, r, x), k);
    }
  }

  // ---------- What an insertion moves ----------

  /** `x`, rising from slot `i`, gets as far as slot `k`. */
  predicate Passes<K>(lt: Less<K>, s: seq<Item<K>>, x: Item<K>, i: nat, k: nat)
    requires i < |s|
    decreases i
  {
    k == i || (i > 0 && Lt(lt, x, s[Up(i)]) && Passes(lt, s, x, Up(i), k))
  }

  /** What slot `k` holds once `x` has risen from slot `i`. */
  function Shifted<K>(lt: Less<K>, s: seq<Item<K>>, x: Item<K>, i: nat, k: nat): Item<K>
    requires i < |s| && k < |s|
  {
    if !Passes(lt, s, x, i, k) then s[k]
    else if k == 0 || !Passes(lt, s, x, i, Up(k)) then x
    else s[Up(k)]
  }

  lemma {:induction false} PassesAbove<K>(lt: Less<K>, s: seq<Item<K>>, x: Item<K>, i: nat, k: nat)
    requires i < |s|
    ensures Passes(lt, s, x, i, k) ==> Above(k, i) && k <= i
    decreases i
  {
    if i > 0 {
      PassesAbove(lt, s, x, Up(i), k);
    }
  }

  lemma {:induction false} PassesSame<K>(lt: Less<K>, s: seq<Item<K>>, t: seq<Item<K>>, x: Item<K>, i: nat, k: nat)
    requires i < |s| && i < |t| && forall j :: 0 <= j < i ==> s[j] == t[j]
    ensures Passes(lt, s, x, i, k) == Passes(lt, t, x, i, k)
    decreases i
  {
    if i > 0 {
      PassesSame(lt, s, t, x, Up(i), k);
    }
  }

  /** Getting one slot further is preceding what is there. */
  lemma {:induction false} PassesUp<K>(lt: Less<K>, s: seq<Item<K>>, x: Item<K>, i: nat, k: nat)
    requires 0 < k <= i < |s| && Passes(lt, s, x, i, k)
    ensures Passes(lt, s, x, i, Up(k)) <==> Lt(lt, x, s[Up(k)])
    decreases i
  {
    if k < i {
      PassesAbove(lt, s, x, Up(i), k);
      PassesUp(lt, s, x, Up(i), k);
    }
  }

  /** An insertion moves the items it passes down by one level each, and nothing else. */
  lemma {:induction false} SiftUpIs<K>(lt: Less<K>, s: seq<Item<K>>, i: nat, k: nat)
    requires i < |s| && k < |s|
    ensures SiftUp(lt, s, i)[k] == Shifted(lt, s, s[i], i, k)
    decreases i
  {
    PassesAbove(lt, s, s[i], i, k);
    if !Above(k, i) {
      SiftUpOff(lt, s, i, k);
    } else if i > 0 && Lt(lt, s[i], s[Up(i)]) {
      var t := Swap(s, i, Up(i));
      PassesSame(lt, s, t, s[i], Up(i), k);
      PassesSame(lt, s, t, s[i], Up(i), Up(k));
      if k == i {
        AboveLow(k, Up(i));
        SiftUpOff(lt, t, Up(i), k);
      } else {
        AboveLow(k, Up(i));
        SiftUpIs(lt, t, Up(i), k);
      }
    }
  }

  lemma {:induction false} AboveLow(a: nat, j: nat)
    ensures Above(a, j) ==> a <= j
    decreases j
  {
    if j > 0 {
      AboveLow(a, Up(j));
    }
  }

  // ---------- An item renewed in place and inserted once more ----------

  /** From slot `j` up to `a`, no item precedes the one above it. */
  ghost predicate PathOk<K>(lt: Less<K>, s: seq<Item<K>>, a: nat, j: nat) {
    forall c {:trigger OkAt(lt, s, c)} :: a < c < |s| && c <= j && Above(c, j) ==> OkAt(lt, s, c)
  }

  lemma {:induction false} PathIsLeast<K(!new)>(lt: Less<K>, s: seq<Item<K>>, a: nat, j: nat)
    requires StrictWeak(lt) && j < |s| && Above(a, j) && PathOk(lt, s, a, j)
    ensures a <= j && !Lt(lt, s[j], s[a])
    decreases j
  {
    if a == j {
      assert !Lt(lt, s[j], s[j]);
    } else {
      AboveLow(a, Up(j));
      assert OkAt(lt, s, j);
      PathIsLeast(lt, s, a, Up(j));
    }
  }

  /** Along such a path an item gets as far as the slots it precedes. */
  lemma {:induction false} PassesWhen<K(!new)>(lt: Less<K>, s: seq<Item<K>>, x: Item<K>, i: nat, k: nat)
    requires StrictWeak(lt) && k < i < |s| && Above(k, i) && PathOk(lt, s, k, Up(i))
    requires Lt(lt, x, s[k])
    ensures Passes(lt, s, x, i, k)
    decreases i
  {
    AboveLow(k, Up(i));
    PathIsLeast(lt, s, k, Up(i));
    if k < Up(i) {
      PassesWhen(lt, s, x, Up(i), k);
    }
  }

  /** The item in slot `j` is renewed to one that precedes the item above it, and is inserted once more:
      this puts the order right when the second copy stops just above the first. */
  predicate Mends<K>(lt: Less<K>, r: seq<Item<K>>, j: nat, u: Item<K>)
    requires 0 < j < |r|
  {
    && Above(Up(j), |r|) && !Above(j, |r|)
    && (Up(j) == 0 || !Lt(lt, u, r[Up(Up(j))]))
  }

  /** Everything away from slot `j` is in order, nothing under it precedes `u`, and `u` does not precede
      what is above it or the insertion mends that. */
  ghost predicate Settles<K>(lt: Less<K>, r: seq<Item<K>>, j: nat, u: Item<K>)
    requires j < |r|
  {
    && (forall c {:trigger OkAt(lt, r, c)} :: 0 < c < |r| && c != j && Up(c) != j ==> OkAt(lt, r, c))
    && (forall c {:trigger OkAt(lt, r, c)} :: 0 < c < |r| && Up(c) == j ==> !Lt(lt, r[c], u))
    && (j == 0 || !Lt(lt, u, r[Up(j)]) || Mends(lt, r, j, u))
  }

  /** `r` with `u` in slot `j`, and `u` at the end. */
  function Doubled<K>(r: seq<Item<K>>, j: nat, u: Item<K>): (s: seq<Item<K>>)
    requires j < |r|
    ensures |s| == |r| + 1 && s[|r|] == u && s[j] == u
    ensures forall c :: 0 <= c < |r| && c != j ==> s[c] == r[c]
  {
    r[j := u] + [u]
  }

  /** Such a sequence is in order in every slot but `j`. */
  lemma DoubledOk<K(!new)>(lt: Less<K>, r: seq<Item<K>>, j: nat, u: Item<K>, c: nat)
    requires j < |r| && Settles(lt, r, j, u) && 0 < c < |r|
    ensures c == j || !Lt(lt, Doubled(r, j, u)[c], Doubled(r, j, u)[Up(c)])
  {
    assert OkAt(lt, r, c) || !OkAt(lt, r, c);
  }

  lemma {:induction false} PassedIsAfter<K>(lt: Less<K>, s: seq<Item<K>>, x: Item<K>, i: nat, k: nat)
    requires k < i < |s| && Passes(lt, s, x, i, k)
    ensures Lt(lt, x, s[k])
    decreases i
  {
    if k != Up(i) {
      PassesAbove(lt, s, x, Up(i), k);
      PassedIsAfter(lt, s, x, Up(i), k);
    }
  }

  /** A second copy that precedes what is above the first passes it, if it comes that way. */
  lemma PassesAboveCopy<K(!new)>(lt: Less<K>, r: seq<Item<K>>, j: nat, u: Item<K>)
    requires StrictWeak(lt) && 0 < j < |r| && Lt(lt, u, r[Up(j)]) && Above(Up(j), |r|) && !Above(j, |r|)
    requires PathOk(lt, r, 0, Up(|r|))
    ensures Passes(lt, Doubled(r, j, u), u, |r|, Up(j))
  {
    var s, n := Doubled(r, j, u), |r|;
    forall c {:trigger OkAt(lt, s, c)} | Up(j) < c < |s| && c <= Up(n) && Above(c, Up(n)) ensures OkAt(lt, s, c) {
      assert OkAt(lt, r, c);
      if Up(c) == j {
        AboveUp(c, n);
      }
    }
    PassesWhen(lt, s, u, n, Up(j));
  }

  lemma SettledOff<K(!new)>(lt: Less<K>, r: seq<Item<K>>, j: nat, u: Item<K>, c: nat)
    requires StrictWeak(lt) && j < |r| && Settles(lt, r, j, u) && 0 < c < |r|
    requires !Passes(lt, Doubled(r, j, u), u, |r|, c)
    ensures !Lt(lt, Doubled(r, j, u)[c], Shifted(lt, Doubled(r, j, u), u, |r|, Up(c)))
  {
    var s, p, n := Doubled(r, j, u), Up(c), |r|;
    DoubledOk(lt, r, j, u, c);
    assert !Lt(lt, u, u);
    if !Passes(lt, s, u, n, p) {
      if c == j && Lt(lt, u, r[p]) {
        assert Mends(lt, r, j, u);
        forall a {:trigger OkAt(lt, r, a)} | 0 < a < |r| && a <= Up(n) && Above(a, Up(n)) ensures OkAt(lt, r, a) {
          AboveUp(a, n);
        }
        PassesAboveCopy(lt, r, j, u);
      }
    } else {
      PassedIsAfter(lt, s, u, n, p);
      if p > 0 && Passes(lt, s, u, n, Up(p)) {
        PassedIsAfter(lt, s, u, n, Up(p));
        DoubledOk(lt, r, j, u, p);
        assert c == j ==> Mends(lt, r, j, u);
      }
    }
  }

  lemma SettledOn<K(!new)>(lt: Less<K>, r: seq<Item<K>>, j: nat, u: Item<K>, c: nat)
    requires StrictWeak(lt) && j < |r| && Settles(lt, r, j, u) && 0 < c <= |r|
    requires Passes(lt, Doubled(r, j, u), u, |r|, c)
    ensures !Lt(lt, Shifted(lt, Doubled(r, j, u), u, |r|, c), Shifted(lt, Doubled(r, j, u), u, |r|, Up(c)))
  {
    var s, p, n := Doubled(r, j, u), Up(c), |r|;
    assert !Lt(lt, u, u);
    PassesUp(lt, s, u, n, c);
    if Passes(lt, s, u, n, p) && p > 0 && Passes(lt, s, u, n, Up(p)) {
      PassedIsAfter(lt, s, u, n, p);
      DoubledOk(lt, r, j, u, p);
    }
  }

  lemma {:induction false} PassesBelow<K>(lt: Less<K>, s: seq<Item<K>>, x: Item<K>, i: nat, j: nat, k: nat)
    requires i < |s| && Passes(lt, s, x, i, k) && Above(j, i) && k <= j
    ensures Passes(lt, s, x, i, j)
    decreases i
  {
    if j != i {
      AboveLow(j, Up(i));
      PassesBelow(lt, s, x, Up(i), j, k);
    }
  }

  lemma UnsettledUnder<K(!new)>(lt: Less<K>, r: seq<Item<K>>, j: nat, u: Item<K>, c: nat)
    requires StrictWeak(lt) && j < |r| && 0 < c < |r| && Up(c) == j && Lt(lt, r[c], u)
    ensures !OkAt(lt, SiftUp(lt, Doubled(r, j, u), |r|), c)
  {
    var s, n := Doubled(r, j, u), |r|;
    SiftUpIs(lt, s, n, c);
    SiftUpIs(lt, s, n, j);
    assert !Lt(lt, u, u);
    if Passes(lt, s, u, n, j) {
      PassedIsAfter(lt, s, u, n, j);
    }
    if Passes(lt, s, u, n, c) {
      PassedIsAfter(lt, s, u, n, c);
    }
  }

  lemma UnsettledOver<K(!new)>(lt: Less<K>, r: seq<Item<K>>, j: nat, u: Item<K>)
    requires StrictWeak(lt) && 0 < j < |r| && Lt(lt, u, r[Up(j)]) && !Mends(lt, r, j, u)
    ensures !OkAt(lt, SiftUp(lt, Doubled(r, j, u), |r|), j)
  {
    var s, n, p := Doubled(r, j, u), |r|, Up(j);
    SiftUpIs(lt, s, n, p);
    SiftUpIs(lt, s, n, j);
    assert !Lt(lt, u, u);
    if Passes(lt, s, u, n, j) {
      PassedIsAfter(lt, s, u, n, j);
    }
    if Passes(lt, s, u, n, p) {
      PassesAbove(lt, s, u, n, p);
      if Above(j, n) {
        PassesBelow(lt, s, u, n, j, p);
      }
      PassesUp(lt, s, u, n, p);
    }
  }

  /** Whether the order holds once the item in slot `j` is renewed to `u` and `u` is inserted as well, in
      a heap with at most slot `k` out of order, away from where the insertion comes by. */
  lemma RenewInsertOrders<K(!new)>(lt: Less<K>, r: seq<Item<K>>, k: nat, j: nat, u: Item<K>)
    requires StrictWeak(lt) && j < |r| && OrderedBut(lt, r, k)
    requires 0 < k < |r| && !OkAt(lt, r, k) ==> !Above(Up(k), |r|)
    ensures Ordered(lt, Inserted(lt, r[j := u], u)) <==> Settles(lt, r, j, u)
  {
    var s, n := Doubled(r, j, u), |r|;
    var t := SiftUp(lt, s, n);
    if Settles(lt, r, j, u) {
      forall c {:trigger OkAt(lt, t, c)} | 0 < c < |t| ensures OkAt(lt, t, c) {
        SiftUpIs(lt, s, n, c);
        SiftUpIs(lt, s, n, Up(c));
        if Passes(lt, s, u, n, c) {
          SettledOn(lt, r, j, u, c);
        } else {
          SettledOff(lt, r, j, u, c);
        }
      }
    } else if c :| 0 < c < |r| && c != j && Up(c) != j && !OkAt(lt, r, c) {
      if Above(c, n) {
        AboveUp(c, n);
      }
      SiftUpOff(lt, s, n, c);
      SiftUpOff(lt, s, n, Up(c));
      assert !OkAt(lt, t, c);
    } else if c :| 0 < c < |r| && Up(c) == j && Lt(lt, r[c], u) {
      UnsettledUnder(lt, r, j, u, c);
    } else {
      UnsettledOver(lt, r, j, u);
    }
  }

  predicate Smaller(x: int, y: int) {
    x < y
  }

  /** A removal that breaks the order: the item with key 3 fills a slot under the one with key 10. */
  lemma RemovedDisorders(s: seq<Item<int>>)
    requires |s| == 6
    requires s[0].key == 1 && s[1].key == 10 && s[2].key == 2 && s[3].key == 11 && s[4].key == 12 && s[5].key == 3
    ensures Ordered(Smaller, s) && !Ordered(Smaller, Removed(Smaller, s, 3))
  {
    forall j {:trigger OkAt(Smaller, s, j)} | 0 < j < |s| ensures OkAt(Smaller, s, j) {
      assert Up(1) == 0 && Up(2) == 0 && Up(3) == 1 && Up(4) == 1 && Up(5) == 2;
    }
    RemovedOrders(Smaller, s, 3);
  }

  // ---------- Whole runs ----------

  /** Schedule an item, unless it already is, or take the first one out. */
  datatype Op<K> = Put(item: Item<K>) | Pop

  function Applied<K>(lt: Less<K>, s: seq<Item<K>>, op: Op<K>): seq<Item<K>> {
    match op
    case Put(x) => if x in s then s else Inserted(lt, s, x)
    case Pop => if s == [] then s else Removed(lt, s, 0)
  }

  /** What the heap holds after a run of operations on an empty one. */
  function After<K>(lt: Less<K>, ops: seq<Op<K>>): seq<Item<K>> {
    if ops == [] then [] else Applied(lt, After(lt, ops[..|ops| - 1]), ops[|ops| - 1])
  }

  /** The items that a run put in, and those that it took out, each in order. */
  function Accepted<K>(lt: Less<K>, ops: seq<Op<K>>): seq<Item<K>> {
    if ops == [] then []
    else
      var before := ops[..|ops| - 1];
      match ops[|ops| - 1]
      case Put(x) => Accepted(lt, before) + if x in After(lt, before) then [] else [x]
      case Pop => Accepted(lt, before)
  }

  function Taken<K>(lt: Less<K>, ops: seq<Op<K>>): seq<Item<K>> {
    if ops == [] then []
    else
      var before := ops[..|ops| - 1];
      match ops[|ops| - 1]
      case Put(x) => Taken(lt, before)
      case Pop => Taken(lt, before) + if After(lt, before) == [] then [] else [After(lt, before)[0]]
  }

  /** Every run keeps the heap in order. */
  lemma {:induction false} RunOrders<K(!new)>(lt: Less<K>, ops: seq<Op<K>>)
    requires StrictWeak(lt)
    ensures Ordered(lt, After(lt, ops))
  {
    if ops != [] {
      var before := ops[..|ops| - 1];
      RunOrders(lt, before);
      var s := After(lt, before);
      match ops[|ops| - 1]
      case Put(x) =>
        InsertedIs(lt, s, x);
      case Pop =>
        if s != [] {
          RemovedOrders(lt, s, 0);
        }
    }
  }

  /** Every run neither loses nor invents an item. */
  lemma {:induction false} RunConserves<K>(lt: Less<K>, ops: seq<Op<K>>)
    ensures multiset(Accepted(lt, ops)) == multiset(After(lt, ops)) + multiset(Taken(lt, ops))
  {
    if ops != [] {
      var before := ops[..|ops| - 1];
      RunConserves(lt, before);
      var s := After(lt, before);
      match ops[|ops| - 1]
      case Put(x) =>
        SiftUpPermutes(lt, s + [x], |s|);
      case Pop =>
        if s != [] {
          RemovedPermutes(lt, s, 0);
          assert s[0] in multiset(s);
        }
    }
  }

  /** Whatever the run before it, a removal takes an item that no other one in the heap precedes,
      and it takes one if there is one. */
  lemma {:induction false} RunTakesLeast<K(!new)>(lt: Less<K>, ops: seq<Op<K>>)
    requires StrictWeak(lt) && After(lt, ops) != []
    ensures var t := Taken(lt, ops + [Pop]);
            && |t| == |Taken(lt, ops)| + 1 && Taken(lt, ops) <= t
            && t[|t| - 1] in After(lt, ops)
            && forall j :: 0 <= j < |After(lt, ops)| ==> !Lt(lt, After(lt, ops)[j], t[|t| - 1])
  {
    var s := After(lt, ops);
    assert (ops + [Pop])[..|ops|] == ops;
    RunOrders(lt, ops);
    forall j | 0 <= j < |s| ensures !Lt(lt, s[j], s[0]) {
      FrontIsLeast(lt, s, j);
    }
  }

  /** The items in the order in which removing the first one over and over yields them. */
  function Drained<K>(lt: Less<K>, s: seq<Item<K>>): (r: seq<Item<K>>)
    ensures |r| == |s|
    decreases |s|
  {
    if s == [] then [] else [s[0]] + Drained(lt, Removed(lt, s, 0))
  }

  ghost predicate Sorted<K>(lt: Less<K>, s: seq<Item<K>>) {
    forall i, j :: 0 <= i < j < |s| ==> !Lt(lt, s[j], s[i])
  }

  lemma {:induction false} DrainedPermutes<K>(lt: Less<K>, s: seq<Item<K>>)
    ensures multiset(Drained(lt, s)) == multiset(s)
    decreases |s|
  {
    if s != [] {
      DrainedPermutes(lt, Removed(lt, s, 0));
      RemovedPermutes(lt, s, 0);
    }
  }

  /** Draining a heap sorts it. */
  lemma {:induction false} DrainedSorts<K(!new)>(lt: Less<K>, s: seq<Item<K>>)
    requires StrictWeak(lt) && Ordered(lt, s)
    ensures Sorted(lt, Drained(lt, s))
    decreases |s|
  {
    if s != [] {
      var r := Removed(lt, s, 0);
      RemovedOrders(lt, s, 0);
      DrainedSorts(lt, r);
      var d := Drained(lt, s);
      forall j | 0 < j < |d| ensures !Lt(lt, d[j], d[0]) {
        DrainedPermutes(lt, s);
        assert d[j] in multiset(s);
        var k :| 0 <= k < |s| && s[k] == d[j];
        FrontIsLeast(lt, s, k);
      }
    }
  }
}
