/** The growable array heap of `src/common/heap.c`, with the `index` and `active`
    fields that it keeps inside its items. */
module Heap {
  import opened Wrappers
  import opened HeapOrder

  const DEFAULT_SIZE: nat := 200
  const INCREASE_SIZE: nat := 100

  /** The item that fills slot `k` is not the removed one, and stays where it was put. */
  predicate Stays<K>(lt: Less<K>, s: seq<Item<K>>, k: nat)
    requires k < |s|
  {
    k < |s| - 1 && Smallest(lt, Filled(s, k), k) == k
  }

  class Heap<K> {
    const lt: Less<K>
    var slots: array<Item?<K>>
    var size: nat
    ghost var items: seq<Item<K>>
    ghost var repr: set<Item<K>>

    /** The first `size` slots hold the items, each once. */
    ghost predicate Valid()
      reads this, slots
    {
      && |items| == size <= slots.Length
      && (forall j :: 0 <= j < size ==> slots[j] == items[j])
      && (forall j :: 0 <= j < size ==> items[j] in repr)
      && Distinct(items)
    }

    /** Every item knows its slot, the one in slot `k` excepted. */
    ghost predicate IndexBut(k: nat)
      reads this, items
    {
      forall j :: 0 <= j < |items| && j != k ==> items[j].index == j
    }

    /** heap_init */
    constructor (lt: Less<K>, maxSize: nat)
      ensures Valid() && items == [] && repr == {} && this.lt == lt && fresh(slots)
      ensures slots.Length == if maxSize == 0 then 200 else maxSize
    {
      var max := if maxSize == 0 then DEFAULT_SIZE else maxSize;
      this.lt, size, items, repr := lt, 0, [], {};
      slots := new Item?<K>[max](_ => null);
    }

    /** The exchange in heap_heapify. */
    method Exchange(i: nat, j: nat)
      requires Valid() && i < size && j < size && i != j
      modifies slots, this`items, repr`index
      ensures Valid() && items == Swap(old(items), i, j)
      ensures items[i].index == i && items[j].index == j
      ensures forall k :: 0 <= k < size && k != i && k != j ==> items[k].index == old(items[k].index)
    {
      var tmp := slots[j];
      slots[j] := slots[i];
      slots[j].index := j;
      slots[i] := tmp;
      slots[i].index := i;
      items := Swap(items, i, j);
    }

    /** The choice in heap_heapify. */
    method LeastOf(i: nat) returns (smallest: nat)
      requires Valid()
      ensures smallest == if i < size then Smallest(lt, items, i) else i
    {
      var l := 2 * i + 1;
      var r := l + 1;
      smallest := i;
      if l < size && lt(slots[l].key, slots[i].key) {
        smallest := l;
      }
      if r < size && lt(slots[r].key, slots[smallest].key) {
        smallest := r;
      }
    }

    /** heap_heapify */
    method Heapify(i: nat)
      requires Valid()
      modifies slots, this`items, repr`index
      ensures Valid() && items == SiftDown(lt, old(items), i)
      ensures forall k :: 0 <= k < size && k < i ==> items[k] == old(items)[k]
      ensures forall k :: 0 <= k < size ==>
                items[k].index == if items[k] == old(items)[k] then old(items[k].index) else k
      decreases size - i
    {
      var smallest := LeastOf(i);
      if smallest == i {
        return;
      }
      Exchange(i, smallest);
      Heapify(smallest);
    }

    /** heap_increase_size */
    method Grow(increase: nat)
      requires Valid()
      modifies this`slots
      ensures Valid() && fresh(slots) && slots.Length == old(slots.Length) + increase
    {
      var bigger := new Item?<K>[slots.Length + increase](_ => null);
      for j := 0 to size
        invariant size <= slots.Length
        invariant forall k :: 0 <= k < size ==> slots[k] == items[k]
        invariant forall k :: 0 <= k < j ==> bigger[k] == items[k]
      {
        bigger[j] := slots[j];
      }
      slots := bigger;
    }

    /** The slots up to `size` hold `s`, slot `i` being a hole kept for `item`. */
    ghost predicate Hole(s: seq<Item<K>>, i: nat, item: Item<K>)
      reads this, slots
    {
      && i < |s| == size + 1 <= slots.Length && s[i] == item
      && (forall j :: 0 <= j <= size && j != i ==> slots[j] == s[j])
      && (forall j :: 0 <= j <= size && j != i ==> s[j] in repr)
      && Distinct(s)
    }

    /** Of items that were in `was` with the indices `ix`, those that moved know their slot and the
        others have kept their index, whatever it was; slot `i` excepted. */
    ghost predicate IndexHole(s: seq<Item<K>>, i: nat, was: seq<Item<K>>, ix: seq<nat>)
      requires |ix| == |was|
      reads s
    {
      && (forall j :: 0 <= j < i && j < |s| && j < |was| ==> s[j] == was[j])
      && forall j :: 0 <= j < |s| && j != i ==> s[j].index == if j < |was| && s[j] == was[j] then ix[j] else j
    }

    /** One round of the loop of heap_insert. */
    method MoveDown(i: nat, item: Item<K>, ghost s: seq<Item<K>>, ghost was: seq<Item<K>>, ghost ix: seq<nat>)
      requires i > 0 && Hole(s, i, item) && |s| == |was| + 1 && |ix| == |was|
      requires Distinct(was) && IndexHole(s, i, was, ix)
      modifies slots, repr`index
      ensures Hole(Swap(s, i, Up(i)), Up(i), item)
      ensures IndexHole(Swap(s, i, Up(i)), Up(i), was, ix)
    {
      var parent := (i - 1) / 2;
      slots[i] := slots[parent];
      slots[i].index := i;
    }

    method Fill(i: nat, item: Item<K>, ghost s: seq<Item<K>>)
      requires Hole(s, i, item)
      modifies slots, this, item
      ensures Valid() && items == s && slots == old(slots) && repr == old(repr) + {item}
      ensures item.active && item.index == i
      ensures forall j :: 0 <= j < size && j != i ==> items[j].index == old(s[j].index)
    {
      slots[i] := item;
      item.index := i;
      size := size + 1;
      item.active := true;
      items, repr := s, repr + {item};
    }

    /** The loop of heap_insert: parents move down until `item` fits. */
    method Place(item: Item<K>)
      requires Valid() && item !in items && size < slots.Length
      modifies this, slots, repr`index, item
      ensures Valid() && slots == old(slots)
      ensures items == Inserted(lt, old(items), item) && repr == old(repr) + {item}
      ensures item.active && item.index < size && items[item.index] == item
      ensures forall j :: 0 <= j < size ==>
                items[j].index == if j < old(size) && items[j] == old(items)[j] then old(items[j].index) else j
    {
      var i: nat := size;
      ghost var s := items + [item];
      ghost var ix := seq(size, j requires 0 <= j < |items| reads items, this => items[j].index);
      while i > 0 && lt(item.key, slots[(i - 1) / 2].key)
        invariant Hole(s, i, item) && SiftUp(lt, s, i) == Inserted(lt, items, item)
        invariant IndexHole(s, i, items, ix)
        modifies slots, repr`index
      {
        MoveDown(i, item, s, items, ix);
        s := Swap(s, i, Up(i));
        i := Up(i);
      }
      Fill(i, item, s);
    }

    /** heap_insert; `memory` says whether a larger map could be allocated. */
    method Insert(item: Item<K>, memory: bool) returns (ok: bool)
      requires Valid() && item !in items
      modifies this, slots, repr`index, item
      ensures Valid() && (slots == old(slots) || fresh(slots))
      ensures ok <==> memory || old(size < slots.Length)
      ensures slots.Length == old(slots.Length) + if memory && old(size == slots.Length) then 100 else 0
      ensures !ok ==> unchanged(this) && unchanged(slots) && unchanged(repr) && unchanged(item)
      ensures ok ==> items == Inserted(lt, old(items), item) && repr == old(repr) + {item}
      ensures ok ==> item.active && item.index < size && items[item.index] == item
      ensures ok ==> forall j :: 0 <= j < size ==>
                items[j].index == if j < old(size) && items[j] == old(items)[j] then old(items[j].index) else j
      ensures old(IndexBut(size)) ==> IndexBut(size)
    {
      if size >= slots.Length {
        if !memory {
          return false;
        }
        Grow(INCREASE_SIZE);
      }
      Place(item);
      ok := true;
    }

    /** The first half of heap_remove: the last item takes slot `k`. */
    method TakeOut(k: nat) returns (item: Item<K>)
      requires Valid() && k < size
      modifies this`size, this`items, this`repr, slots
      ensures Valid() && size == old(size) - 1 && items == Filled(old(items), k)
      ensures item == old(items)[k] && item !in items && repr == old(repr) - {item}
    {
      item := slots[k];
      size := size - 1;
      slots[k] := slots[size];
      items, repr := Filled(items, k), repr - {item};
    }

    /** heap_remove up to the fields of the removed item. Only the items that sifting moves learn their
        new slots; the others keep their index, whatever it was. */
    method SiftOut(k: nat) returns (item: Item<K>)
      requires Valid() && k < size
      modifies this`size, this`items, this`repr, slots, repr`index
      ensures Valid() && size == old(size) - 1 && items == Removed(lt, old(items), k)
      ensures item == old(items)[k] && item !in items && repr == old(repr) - {item}
      ensures forall j :: 0 <= j < size ==>
                items[j].index == if items[j] == Filled(old(items), k)[j] then old(Filled(items, k)[j].index) else j
    {
      ghost var r := Filled(items, k);
      item := TakeOut(k);
      assert forall j :: 0 <= j < size ==> items[j].index == old(r[j].index);
      Heapify(k);
    }

    /** heap_remove. The last item takes the free slot `k`; indices that were right stay right exactly
        when the removed item was the last one or its replacement sank. */
    method Remove(k: nat) returns (item: Item?<K>)
      requires Valid()
      modifies this`size, this`items, this`repr, slots, repr
      ensures Valid()
      ensures k >= old(size) ==> item == null && unchanged(this) && unchanged(slots) && unchanged(repr)
      ensures k < old(size) ==> item == old(items)[k] && items == Removed(lt, old(items), k)
      ensures k < old(size) ==> !item.active && item.index == 0 && repr == old(repr) - {item}
      ensures forall x :: x in repr ==> x.active == old(x.active)
      ensures k < old(size) ==> forall j :: 0 <= j < size ==>
                items[j].index == if items[j] == Filled(old(items), k)[j] then old(Filled(items, k)[j].index) else j
      ensures k < old(size) && old(IndexBut(size)) ==>
                if Stays(lt, old(items), k) then IndexBut(k) && items[k].index == size != k else IndexBut(size)
    {
      if k >= size {
        return null;
      }
      RemovedTop(lt, items, k);
      item := SiftOut(k);
      item.index := 0;
      item.active := false;
    }
  }

  /** The replacement keeps the free slot exactly when it stays there. */
  lemma RemovedTop<K>(lt: Less<K>, s: seq<Item<K>>, k: nat)
    requires k < |s| && Distinct(s)
    ensures k < |s| - 1 ==> (Removed(lt, s, k)[k] == s[|s| - 1] <==> Stays(lt, s, k))
  {
    if k < |s| - 1 {
      SiftDownTop(lt, Filled(s, k), k);
    }
  }

  ghost function Mentioned<K>(ops: seq<Op<K>>): set<Item<K>> {
    set op | op in ops && op.Put? :: op.item
  }

  lemma InsertedHolds<K>(lt: Less<K>, s: seq<Item<K>>, x: Item<K>, y: Item<K>)
    ensures y in Inserted(lt, s, x) <==> y in s || y == x
  {
    var r := Inserted(lt, s, x);
    SiftUpPermutes(lt, s + [x], |s|);
    assert y in r <==> y in multiset(r);
    assert y in s <==> y in multiset(s);
  }

  lemma {:induction false} SiftDownDistinct<K>(lt: Less<K>, s: seq<Item<K>>, i: nat)
    requires Distinct(s)
    ensures Distinct(SiftDown(lt, s, i))
    decreases |s| - i
  {
    if i < |s| {
      var m := Smallest(lt, s, i);
      if m != i {
        SiftDownDistinct(lt, Swap(s, i, m), m);
      }
    }
  }

  lemma CountsOnce<K>(s: seq<Item<K>>, k: nat)
    requires k < |s| && Distinct(s)
    ensures multiset(s)[s[k]] == 1
  {
    assert s == s[..k] + [s[k]] + s[k + 1..];
    assert s[k] !in s[..k] && s[k] !in s[k + 1..];
  }

  lemma RemovedHolds<K>(lt: Less<K>, s: seq<Item<K>>, k: nat, y: Item<K>)
    requires k < |s| && Distinct(s)
    ensures y in Removed(lt, s, k) <==> y in s && y != s[k]
  {
    var r := Removed(lt, s, k);
    RemovedPermutes(lt, s, k);
    CountsOnce(s, k);
    assert y in r <==> y in multiset(r);
    assert y in s <==> y in multiset(s);
  }

  /** What an operation leaves in the heap, item by item. */
  lemma AppliedHolds<K>(lt: Less<K>, s: seq<Item<K>>, op: Op<K>, y: Item<K>)
    requires Distinct(s)
    ensures y in Applied(lt, s, op) <==>
            if op.Put? then y in s || y == op.item else y in s && y != s[0]
  {
    if op.Put? {
      InsertedHolds(lt, s, op.item, y);
    } else if s != [] {
      RemovedHolds(lt, s, 0, y);
    }
  }

  /** One operation of a run: timer_add, which turns down an active item, or heap_remove_first. */
  method Perform<K>(h: Heap<K>, op: Op<K>, ghost all: set<Item<K>>)
    requires h.Valid() && h.repr <= all && (op.Put? ==> op.item in all)
    requires forall x :: x in all ==> (x.active <==> x in h.items)
    modifies h, h.slots, all
    ensures h.Valid() && h.repr <= all && (h.slots == old(h.slots) || fresh(h.slots))
    ensures h.items == Applied(h.lt, old(h.items), op)
    ensures forall x :: x in all ==> (x.active <==> x in h.items)
  {
    forall x | x in all
      ensures x in Applied(h.lt, h.items, op) <==>
              if op.Put? then x in h.items || x == op.item else x in h.items && x != h.items[0]
    {
      AppliedHolds(h.lt, h.items, op, x);
    }
    match op
    case Put(x) =>
      if !x.active {
        var _ := h.Insert(x, true);
      }
    case Pop =>
      var _ := h.Remove(0);
  }

  /** Any run of operations on an empty heap: the array then holds what the value-level run says,
      and exactly the active items. */
  method Replay<K>(lt: Less<K>, maxSize: nat, ops: seq<Op<K>>) returns (h: Heap<K>)
    requires forall x :: x in Mentioned(ops) ==> !x.active
    modifies Mentioned(ops)
    ensures h.Valid() && h.lt == lt && h.items == After(lt, ops)
    ensures forall x :: x in Mentioned(ops) ==> (x.active <==> x in h.items)
  {
    h := new Heap(lt, maxSize);
    ghost var all := Mentioned(ops);
    for n := 0 to |ops|
      invariant fresh(h) && fresh(h.slots) && h.Valid() && h.lt == lt && h.repr <= all
      invariant h.items == After(lt, ops[..n])
      invariant forall x :: x in all ==> (x.active <==> x in h.items)
    {
      assert ops[..n + 1][..n] == ops[..n];
      Perform(h, ops[n], all);
    }
    assert ops[..|ops|] == ops;
  }
}
