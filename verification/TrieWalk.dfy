/** Walking the trie with an explicit stack: bst_iterator_init/next and
    bst_subtree_func of `src/stack/bst.c`, against the recursive pre-order. */
module TrieWalk {
  import opened Wrappers
  import opened PrefixMap
  import opened Trie

  // ---------- The recursive pre-order ----------

  lemma KidShrinks(nodes: set<Path>, p: Path, b: bool)
    requires p in nodes
    ensures Under(nodes, p + [b]) < Under(nodes, p)
  {
    assert p in Under(nodes, p) && p !in Under(nodes, p + [b]);
  }

  /** The node, then the subtree on side `b`, then the subtree on the other side. */
  ghost function PreOrder(nodes: set<Path>, p: Path, b: bool): seq<Path>
    decreases Under(nodes, p)
  {
    if p !in nodes then []
    else
      KidShrinks(nodes, p, b);
      KidShrinks(nodes, p, !b);
      [p] + PreOrder(nodes, p + [b], b) + PreOrder(nodes, p + [!b], b)
  }

  /** The pre-orders of the subtrees on a stack, top first. */
  ghost function Flat(nodes: set<Path>, stack: seq<Path>, b: bool): seq<Path> {
    if stack == [] then [] else PreOrder(nodes, stack[0], b) + Flat(nodes, stack[1..], b)
  }

  ghost predicate ClosedUp(nodes: set<Path>) {
    forall p {:trigger Parent(p)} :: p in nodes && p != [] ==> Parent(p) in nodes
  }

  lemma UnderSplit(nodes: set<Path>, p: Path, b: bool)
    requires p in nodes
    ensures Under(nodes, p) == {p} + Under(nodes, p + [b]) + Under(nodes, p + [!b])
    ensures p !in Under(nodes, p + [b]) && p !in Under(nodes, p + [!b])
    ensures Under(nodes, p + [b]) !! Under(nodes, p + [!b])
  {
    forall q | q in Under(nodes, p) && q != p ensures q in Under(nodes, if q[|p|] == b then p + [b] else p + [!b]) {
    }
    assert (p + [b])[|p|] != (p + [!b])[|p|];
  }

  lemma DisjointSum(p: Path, s: set<Path>, t: set<Path>)
    requires p !in s && p !in t && s !! t
    ensures multiset({p} + s + t) == multiset{p} + multiset(s) + multiset(t)
  {
  }

  /** The pre-order lists every node of the subtree exactly once. */
  lemma {:induction false} PreOrderListsOnce(nodes: set<Path>, p: Path, b: bool)
    requires ClosedUp(nodes)
    ensures p in nodes ==> ListsOnce(PreOrder(nodes, p, b), Under(nodes, p))
    ensures p !in nodes ==> Under(nodes, p) == {}
    decreases Under(nodes, p), p in nodes
  {
    if p !in nodes {
      forall q | q in nodes ensures !(p <= q) {
        if p <= q {
          ClosedDown(nodes, q, p);
        }
      }
    } else {
      var l, r := p + [b], p + [!b];
      KidShrinks(nodes, p, b);
      KidShrinks(nodes, p, !b);
      PreOrderListsOnce(nodes, l, b);
      PreOrderListsOnce(nodes, r, b);
      UnderSplit(nodes, p, b);
      DisjointSum(p, Under(nodes, l), Under(nodes, r));
    }
  }

  lemma ClosedDown(nodes: set<Path>, q: Path, p: Path)
    requires ClosedUp(nodes) && q in nodes && p <= q
    ensures p in nodes
    decreases |q|
  {
    if p != q {
      assert p <= Parent(q);
      ClosedDown(nodes, Parent(q), p);
    }
  }

  // ---------- The order of the pre-order ----------

  /** A prefix comes before its extensions; otherwise bit `b` comes first. */
  ghost predicate Before(p: Path, q: Path, b: bool) {
    if q == [] then false
    else if p == [] then true
    else if p[0] == q[0] then Before(p[1..], q[1..], b)
    else p[0] == b
  }

  ghost predicate Sorted(ps: seq<Path>, b: bool) {
    forall i, j :: 0 <= i < j < |ps| ==> Before(ps[i], ps[j], b)
  }

  lemma {:induction false} PrefixBefore(p: Path, q: Path, b: bool)
    requires p <= q && p != q
    ensures Before(p, q, b)
  {
    if p != [] {
      PrefixBefore(p[1..], q[1..], b);
    }
  }

  lemma {:induction false} SidesBefore(p: Path, x: Path, y: Path, b: bool)
    requires p + [b] <= x && p + [!b] <= y
    ensures Before(x, y, b)
  {
    if p == [] {
      assert x[0] == (p + [b])[0] && y[0] == (p + [!b])[0];
    } else {
      assert x[0] == (p + [b])[0] && y[0] == (p + [!b])[0];
      assert p[1..] + [b] == (p + [b])[1..] && p[1..] + [!b] == (p + [!b])[1..];
      SidesBefore(p[1..], x[1..], y[1..], b);
    }
  }

  lemma {:induction false} PreOrderUnder(nodes: set<Path>, p: Path, b: bool)
    ensures forall x :: x in PreOrder(nodes, p, b) ==> x in nodes && p <= x
    decreases Under(nodes, p)
  {
    if p in nodes {
      KidShrinks(nodes, p, b);
      KidShrinks(nodes, p, !b);
      PreOrderUnder(nodes, p + [b], b);
      PreOrderUnder(nodes, p + [!b], b);
    }
  }

  lemma {:induction false} SortedConcat(xs: seq<Path>, ys: seq<Path>, b: bool)
    requires Sorted(xs, b) && Sorted(ys, b)
    requires forall x, y :: x in xs && y in ys ==> Before(x, y, b)
    ensures Sorted(xs + ys, b)
  {
    forall i, j | 0 <= i < j < |xs + ys| ensures Before((xs + ys)[i], (xs + ys)[j], b) {
      if i < |xs| <= j {
        assert xs[i] in xs && ys[j - |xs|] in ys;
      }
    }
  }

  /** The pre-order is the strictly increasing listing of the subtree. */
  lemma {:induction false} PreOrderSorted(nodes: set<Path>, p: Path, b: bool)
    ensures Sorted(PreOrder(nodes, p, b), b)
    decreases Under(nodes, p)
  {
    if p in nodes {
      var l, r := p + [b], p + [!b];
      KidShrinks(nodes, p, b);
      KidShrinks(nodes, p, !b);
      PreOrderSorted(nodes, l, b);
      PreOrderSorted(nodes, r, b);
      PreOrderUnder(nodes, l, b);
      PreOrderUnder(nodes, r, b);
      var ls, rs := PreOrder(nodes, l, b), PreOrder(nodes, r, b);
      forall x, y | x in [p] && y in ls ensures Before(x, y, b) {
        PrefixBefore(p, y, b);
      }
      SortedConcat([p], ls, b);
      forall x, y | x in [p] + ls && y in rs ensures Before(x, y, b) {
        if x == p {
          PrefixBefore(p, y, b);
        } else {
          SidesBefore(p, x, y, b);
        }
      }
      SortedConcat([p] + ls, rs, b);
    }
  }

  /** The last node of the pre-order has no children. */
  lemma {:induction false} LastIsLeaf(nodes: set<Path>, p: Path, b: bool)
    requires p in nodes
    ensures var ps := PreOrder(nodes, p, b);
            ps != [] && var z := ps[|ps| - 1]; z in nodes && p <= z && z + [false] !in nodes && z + [true] !in nodes
    decreases Under(nodes, p)
  {
    KidShrinks(nodes, p, b);
    KidShrinks(nodes, p, !b);
    if p + [!b] in nodes {
      LastIsLeaf(nodes, p + [!b], b);
    } else if p + [b] in nodes {
      LastIsLeaf(nodes, p + [b], b);
    } else {
      assert (if b then p + [true] else p + [false]) == p + [b];
      assert (if b then p + [false] else p + [true]) == p + [!b];
    }
  }

  // ---------- The iterator ----------

  lemma NodesClosed<V>(t: Trie<V>)
    requires t.Valid()
    ensures ClosedUp(t.at.Keys)
  {
    forall p {:trigger Parent(p)} | p in t.at && p != [] ensures Parent(p) in t.at {
      t.Known(p);
    }
  }

  ghost function PathsOf<V>(ns: seq<Node<V>>): seq<Path> {
    seq(|ns|, i requires 0 <= i < |ns| => ns[i].prefix)
  }

  /** Where the first entry in a list of prefixes is; its length if there is none. */
  ghost function FirstActive<V>(ps: seq<Path>, m: map<Path, V>): (k: nat)
    ensures k <= |ps|
    ensures forall i :: 0 <= i < k ==> ps[i] !in m
    ensures k < |ps| ==> ps[k] in m
  {
    if ps == [] || ps[0] in m then 0 else 1 + FirstActive(ps[1..], m)
  }

  lemma PushFlat(nodes: set<Path>, p: Path, rest: seq<Path>, b: bool)
    ensures Flat(nodes, [p] + rest, b) == PreOrder(nodes, p, b) + Flat(nodes, rest, b)
  {
    assert ([p] + rest)[1..] == rest;
  }

  ghost function Present(nodes: set<Path>, p: Path): seq<Path> {
    if p in nodes then [p] else []
  }

  /** The children of `p`, in the order in which they come off the stack. */
  ghost function Kids(nodes: set<Path>, p: Path, b: bool): seq<Path> {
    Present(nodes, p + [b]) + Present(nodes, p + [!b])
  }

  lemma PresentFlat(nodes: set<Path>, p: Path, rest: seq<Path>, b: bool)
    ensures Flat(nodes, Present(nodes, p) + rest, b) == PreOrder(nodes, p, b) + Flat(nodes, rest, b)
  {
    if p in nodes {
      PushFlat(nodes, p, rest, b);
    } else {
      assert [] + rest == rest;
    }
  }

  /** Popping a node and pushing its children moves the node from the rest to the visited. */
  lemma VisitFlat(nodes: set<Path>, p: Path, rest: seq<Path>, b: bool)
    requires p in nodes
    ensures Flat(nodes, [p] + rest, b) == [p] + Flat(nodes, Kids(nodes, p, b) + rest, b)
  {
    var l, r := p + [b], p + [!b];
    var ls, rs, f := PreOrder(nodes, l, b), PreOrder(nodes, r, b), Flat(nodes, rest, b);
    PushFlat(nodes, p, rest, b);
    PresentFlat(nodes, r, rest, b);
    PresentFlat(nodes, l, Present(nodes, r) + rest, b);
    ConcatAssoc(Present(nodes, l), Present(nodes, r), rest);
    ConcatAssoc([p] + ls, rs, f);
    ConcatAssoc([p], ls, rs + f);
  }

  ghost predicate AllIn<V>(t: Trie<V>, ns: seq<Node<V>>)
    reads t
  {
    forall i :: 0 <= i < |ns| ==> t.Has(ns[i])
  }

  lemma PathsPush<V>(t: Trie<V>, n: Node<V>, ns: seq<Node<V>>)
    ensures PathsOf([n] + ns) == [n.prefix] + PathsOf(ns)
    ensures AllIn(t, [n] + ns) <==> t.Has(n) && AllIn(t, ns)
  {
    assert ([n] + ns)[0] == n;
    forall i | 0 <= i < |ns| ensures ([n] + ns)[i + 1] == ns[i] {
    }
  }

  /** stack_push of a node's child on side `b`, if it has one. */
  method Push<V>(t: Trie<V>, n: Node<V>, b: bool, stack: seq<Node<V>>) returns (stack': seq<Node<V>>)
    requires t.Valid() && t.Has(n) && AllIn(t, stack)
    ensures AllIn(t, stack')
    ensures PathsOf(stack') == Present(t.at.Keys, n.prefix + [b]) + PathsOf(stack)
  {
    var kid := if b then n.right else n.left;
    t.Known(n.prefix);
    assert n.prefix + [b] == if b then n.prefix + [true] else n.prefix + [false];
    if kid == null {
      return stack;
    }
    t.Known(n.prefix + [b]);
    PathsPush(t, kid, stack);
    stack' := [kid] + stack;
  }

  /** One turn of the loops of bst_iterator_next and bst_subtree_func: pop a node and push its children,
      the one on side `b` last. */
  method Visit<V>(t: Trie<V>, stack: seq<Node<V>>, b: bool) returns (n: Node<V>, stack': seq<Node<V>>)
    requires t.Valid() && AllIn(t, stack) && stack != []
    ensures t.Has(n) && AllIn(t, stack')
    ensures Flat(t.at.Keys, PathsOf(stack), b) == [n.prefix] + Flat(t.at.Keys, PathsOf(stack'), b)
  {
    n := stack[0];
    stack' := stack[1..];
    PathsPush(t, n, stack');
    assert stack == [n] + stack';
    ghost var p, below, nodes := n.prefix, PathsOf(stack'), t.at.Keys;
    VisitFlat(nodes, p, below, b);
    ConcatAssoc(Present(nodes, p + [b]), Present(nodes, p + [!b]), below);
    stack' := Push(t, n, !b, stack');
    stack' := Push(t, n, b, stack');
  }

  lemma FirstActiveIs<V>(ps: seq<Path>, m: map<Path, V>, k: nat)
    requires k <= |ps| && (forall i :: 0 <= i < k ==> ps[i] !in m) && (k < |ps| ==> ps[k] in m)
    ensures FirstActive(ps, m) == k
  {
  }

  /** `r` is what one call returns when `rest` is still to be visited, and `rest'` is left. */
  ghost predicate Sought<V>(t: Trie<V>, rest: seq<Path>, r: Node?<V>, rest': seq<Path>)
    reads t
  {
    var k := FirstActive(rest, t.m);
    if k < |rest| then
      r != null && t.Has(r) && r.prefix == rest[k] && rest' == rest[k + 1..]
    else
      rest' == [] &&
      if rest == [] then r == null else r != null && t.Has(r) && r.prefix == rest[|rest| - 1]
  }

  /** The loop of bst_iterator_next. */
  method Seek<V>(t: Trie<V>, stack: seq<Node<V>>) returns (n: Node?<V>, stack': seq<Node<V>>)
    requires t.Valid() && AllIn(t, stack)
    ensures AllIn(t, stack')
    ensures Sought(t, Flat(t.at.Keys, PathsOf(stack), true), n, Flat(t.at.Keys, PathsOf(stack'), true))
  {
    n, stack' := null, stack;
    ghost var rest := Flat(t.at.Keys, PathsOf(stack), true);
    ghost var done: nat := 0;
    while stack' != []
      invariant AllIn(t, stack') && done <= |rest|
      invariant Flat(t.at.Keys, PathsOf(stack'), true) == rest[done..]
      invariant forall i :: 0 <= i < done ==> rest[i] !in t.m
      invariant if done == 0 then n == null else n != null && t.Has(n) && n.prefix == rest[done - 1]
      decreases |rest| - done
    {
      n, stack' := Visit(t, stack', true);
      assert rest[done..][0] == n.prefix && rest[done..][1..] == rest[done + 1..];
      t.Known(n.prefix);
      if n.priv.Some? {
        break;
      }
      done := done + 1;
    }
    FirstActiveIs(rest, t.m, done);
  }

  class Iterator<V> {
    const tree: Trie<V>
    var stack: seq<Node<V>>
    var curr: Node?<V>

    ghost predicate Valid()
      reads this, tree, tree.repr
    {
      tree.Valid() && AllIn(tree, stack)
    }

    /** What is still to be visited. */
    ghost function Rest(): seq<Path>
      reads this, tree
    {
      Flat(tree.at.Keys, PathsOf(stack), true)
    }

    /** bst_iterator_init */
    constructor (t: Trie<V>)
      requires t.Valid()
      ensures Valid() && tree == t
      ensures Rest() == PreOrder(t.at.Keys, [], true)
    {
      tree, curr := t, t.root;
      stack := if t.root != null then [t.root] else [];
      new;
      if t.root != null {
        t.Known([]);
        assert PathsOf(stack) == [[]] + [];
        PushFlat(t.at.Keys, [], [], true);
      }
    }

    /** bst_iterator_next: skip to the next active node; the last node popped is returned
        even when it is inactive. */
    method Next() returns (r: Node?<V>)
      requires Valid()
      modifies this
      ensures Valid() && curr == r
      ensures Sought(tree, old(Rest()), r, Rest())
    {
      r, stack := Seek(tree, stack);
      curr := r;
    }
  }

  /** What a full run of the iterator returns: the entries in order, then once more the last
      node if that one is inactive. */
  ghost function IteratorRun<V>(ps: seq<Path>, m: map<Path, V>): seq<Path> {
    Active(ps, m) + if ps != [] && ps[|ps| - 1] !in m then [ps[|ps| - 1]] else []
  }

  lemma {:induction false} ActiveConcat<V>(xs: seq<Path>, ys: seq<Path>, m: map<Path, V>)
    ensures Active(xs + ys, m) == Active(xs, m) + Active(ys, m)
    decreases |ys|
  {
    if ys == [] {
      assert xs + ys == xs;
    } else {
      var k := |ys| - 1;
      assert (xs + ys)[..|xs + ys| - 1] == xs + ys[..k];
      ActiveConcat(xs, ys[..k], m);
    }
  }

  lemma {:induction false} NoneActive<V>(xs: seq<Path>, m: map<Path, V>)
    requires forall i :: 0 <= i < |xs| ==> xs[i] !in m
    ensures Active(xs, m) == []
  {
    if xs != [] {
      NoneActive(xs[..|xs| - 1], m);
    }
  }

  lemma ActiveSplit<V>(rest: seq<Path>, m: map<Path, V>, k: nat)
    requires k == FirstActive(rest, m) < |rest|
    ensures Active(rest, m) == [rest[k]] + Active(rest[k + 1..], m)
  {
    NoneActive(rest[..k], m);
    assert rest == rest[..k] + [rest[k]] + rest[k + 1..];
    ActiveConcat(rest[..k] + [rest[k]], rest[k + 1..], m);
    ActiveConcat(rest[..k], [rest[k]], m);
    assert Active([rest[k]], m) == [rest[k]];
  }

  /** One call of Next takes the head of the run that is left. */
  lemma RunStep<V>(rest: seq<Path>, m: map<Path, V>)
    ensures var k := FirstActive(rest, m);
            IteratorRun(rest, m) ==
            if k < |rest| then [rest[k]] + IteratorRun(rest[k + 1..], m)
            else if rest == [] then [] else [rest[|rest| - 1]]
  {
    var k := FirstActive(rest, m);
    if k < |rest| {
      ActiveSplit(rest, m, k);
      var tail := rest[k + 1..];
      assert tail != [] ==> tail[|tail| - 1] == rest[|rest| - 1];
      ConcatAssoc([rest[k]], Active(tail, m), if tail != [] && tail[|tail| - 1] !in m then [tail[|tail| - 1]] else []);
    } else {
      NoneActive(rest, m);
    }
  }

  /** The same from what a call returned and left. */
  lemma RunAfter<V>(rest: seq<Path>, m: map<Path, V>, r: Option<Path>, rest': seq<Path>)
    requires var k := FirstActive(rest, m);
             if k < |rest| then r == Some(rest[k]) && rest' == rest[k + 1..]
             else rest' == [] && r == if rest == [] then None else Some(rest[|rest| - 1])
    ensures IteratorRun(rest, m) == if r.None? then [] else [r.value] + IteratorRun(rest', m)
  {
    RunStep(rest, m);
  }

  /** One call of Next, as a step of the run. */
  method NextOf<V>(it: Iterator<V>) returns (n: Node?<V>)
    requires it.Valid()
    modifies it
    ensures it.Valid()
    ensures n == null ==> IteratorRun(old(it.Rest()), it.tree.m) == []
    ensures n != null ==> it.tree.Has(n) &&
                          IteratorRun(old(it.Rest()), it.tree.m) == [n.prefix] + IteratorRun(it.Rest(), it.tree.m)
  {
    n := it.Next();
    RunAfter(old(it.Rest()), it.tree.m, it.tree.PathOf(n), it.Rest());
  }

  /** service_table_print's loop: call Next until it returns NULL. */
  method Collect<V>(t: Trie<V>) returns (out: seq<Node<V>>)
    requires t.Valid()
    ensures AllIn(t, out)
    ensures PathsOf(out) == IteratorRun(PreOrder(t.at.Keys, [], true), t.m)
  {
    var it := new Iterator<V>(t);
    out := [];
    ghost var all := IteratorRun(it.Rest(), t.m);
    while true
      invariant fresh(it) && it.Valid() && it.tree == t && AllIn(t, out)
      invariant all == PathsOf(out) + IteratorRun(it.Rest(), t.m)
      decreases |IteratorRun(it.Rest(), t.m)|
    {
      var n := NextOf(it);
      if n == null {
        break;
      }
      ConcatAssoc(PathsOf(out), [n.prefix], IteratorRun(it.Rest(), t.m));
      PathsSnoc(t, out, n);
      out := out + [n];
    }
  }

  lemma PathsSnoc<V>(t: Trie<V>, ns: seq<Node<V>>, n: Node<V>)
    requires t.Has(n)
    ensures PathsOf(ns + [n]) == PathsOf(ns) + [n.prefix]
    ensures AllIn(t, ns) ==> AllIn(t, ns + [n])
  {
    assert forall i :: 0 <= i < |ns| ==> (ns + [n])[i] == ns[i];
  }

  lemma {:induction false} ActiveSorted<V>(ps: seq<Path>, m: map<Path, V>, b: bool)
    requires Sorted(ps, b)
    ensures Sorted(Active(ps, m), b)
    ensures forall x :: x in Active(ps, m) ==> x in ps && x in m
  {
    if ps != [] {
      var k := |ps| - 1;
      ActiveSorted(ps[..k], m, b);
      forall x | x in Active(ps[..k], m) ensures Before(x, ps[k], b) {
        var i :| 0 <= i < k && ps[i] == x;
      }
      SortedConcat(Active(ps[..k], m), if ps[k] in m then [ps[k]] else [], b);
    }
  }

  /** The node that going left where possible, else right, ends at. */
  ghost function Descent(nodes: set<Path>, p: Path): (z: Path)
    requires p in nodes
    decreases Under(nodes, p)
  {
    KidShrinks(nodes, p, false);
    KidShrinks(nodes, p, true);
    if p + [false] in nodes then Descent(nodes, p + [false])
    else if p + [true] in nodes then Descent(nodes, p + [true])
    else p
  }

  /** It is the one that a walk visits last, since 0 bits are tried after 1 bits. */
  lemma {:induction false} DescentIsLast(nodes: set<Path>, p: Path)
    requires p in nodes
    ensures var ps := PreOrder(nodes, p, true); ps != [] && ps[|ps| - 1] == Descent(nodes, p)
    decreases Under(nodes, p)
  {
    KidShrinks(nodes, p, false);
    KidShrinks(nodes, p, true);
    if p + [false] in nodes {
      DescentIsLast(nodes, p + [false]);
    } else if p + [true] in nodes {
      DescentIsLast(nodes, p + [true]);
    }
  }

  lemma RunIsExact<V>(ps: seq<Path>, m: map<Path, V>)
    requires ps != [] && ListsOnce(Active(ps, m), m.Keys) && Sorted(Active(ps, m), true)
    ensures ListsOnce(IteratorRun(ps, m), m.Keys) && Sorted(IteratorRun(ps, m), true) <==> ps[|ps| - 1] in m
  {
    var z := ps[|ps| - 1];
    if z !in m {
      var run := Active(ps, m) + [z];
      assert run[|run| - 1] == z && multiset(run)[z] > 0;
      assert multiset(m.Keys)[z] == 0;
    } else {
      assert Active(ps, m) + [] == Active(ps, m);
    }
  }

  /** A full run returns every entry exactly once, in order and before its extensions, and then
      NULL, exactly when the trie has no nodes or the leaf reached from the root by going left where
      possible, else right, is active. */
  lemma IteratorIsExact<V>(t: Trie<V>)
    requires t.Valid()
    ensures var run := IteratorRun(PreOrder(t.at.Keys, [], true), t.m);
            ListsOnce(run, t.m.Keys) && Sorted(run, true) <==>
            (t.root == null || Descent(t.at.Keys, []) in t.m)
  {
    var nodes := t.at.Keys;
    var ps := PreOrder(nodes, [], true);
    if t.root != null {
      NodesClosed(t);
      PreOrderListsOnce(nodes, [], true);
      assert Under(nodes, []) == nodes;
      PreOrderSorted(nodes, [], true);
      ActiveListsEntries(ps, t.m, nodes);
      ActiveSorted(ps, t.m, true);
      DescentIsLast(nodes, []);
      RunIsExact(ps, t.m);
    }
  }

  /** Tries that were only inserted into and released from are walked exactly. */
  lemma TidyIsExact<V>(t: Trie<V>)
    requires t.Valid() && t.Tidy() && t.m != map[]
    ensures t.root != null && Descent(t.at.Keys, []) in t.m
  {
    var nodes := t.at.Keys;
    var p :| p in t.m;
    t.Ancestors(p, []);
    LastIsLeaf(nodes, [], true);
    DescentIsLast(nodes, []);
    var z := Descent(nodes, []);
    assert z == [] || !DeadLeaf(nodes, t.m.Keys, z);
    if z == [] && p != [] {
      t.Ancestors(p, p[..1]);
      assert p[..1] == if p[0] then z + [true] else z + [false];
    }
  }

  // ---------- Applying a function to a subtree ----------

  /** What bst_subtree_func returns over the nodes `ps`, `acc` being the sum so far. */
  ghost function FuncResult<V>(ps: seq<Path>, m: map<Path, V>, func: V -> int, acc: int): int {
    if ps == [] then acc
    else if ps[0] !in m then FuncResult(ps[1..], m, func, acc)
    else if func(m[ps[0]]) < 0 then func(m[ps[0]])
    else FuncResult(ps[1..], m, func, acc + func(m[ps[0]]))
  }

  /** The entries it visits whose callback releases them; a negative return is the last visit. */
  ghost function Dropped<V>(ps: seq<Path>, m: map<Path, V>, func: V -> int, gone: V -> bool): set<Path> {
    if ps == [] then {}
    else if ps[0] !in m then Dropped(ps[1..], m, func, gone)
    else
      (if gone(m[ps[0]]) then {ps[0]} else {}) +
      if func(m[ps[0]]) < 0 then {} else Dropped(ps[1..], m, func, gone)
  }

  /** The first negative return ends the walk and is its result; the entries dropped are those released up to
      and with it. */
  lemma {:induction false} FirstFailureEnds<V>(ps: seq<Path>, m: map<Path, V>, func: V -> int, gone: V -> bool,
                                                acc: int)
    returns (k: nat)
    ensures k <= |ps| && forall i :: 0 <= i < k && ps[i] in m ==> func(m[ps[i]]) >= 0
    ensures k < |ps| ==> ps[k] in m && func(m[ps[k]]) < 0 && FuncResult(ps, m, func, acc) == func(m[ps[k]])
    ensures k == |ps| ==> FuncResult(ps, m, func, acc) >= acc
    ensures forall p :: p in Dropped(ps, m, func, gone) <==>
              exists i :: 0 <= i <= k && i < |ps| && ps[i] == p && p in m && gone(m[p])
    decreases |ps|
  {
    if ps == [] || (ps[0] in m && func(m[ps[0]]) < 0) {
      k := 0;
    } else {
      var rest := ps[1..];
      var j := FirstFailureEnds(rest, m, func, gone, if ps[0] in m then acc + func(m[ps[0]]) else acc);
      k := j + 1;
      forall i | 0 <= i < |rest| ensures ps[i + 1] == rest[i] {
      }
      forall p ensures p in Dropped(ps, m, func, gone) <==>
                       exists i :: 0 <= i <= k && i < |ps| && ps[i] == p && p in m && gone(m[p])
      {
        if i :| 0 <= i <= j && i < |rest| && rest[i] == p && p in m && gone(m[p]) {
          assert ps[i + 1] == p;
        }
        if i :| 0 <= i <= k && i < |ps| && ps[i] == p && p in m && gone(m[p]) {
          assert i > 0 ==> rest[i - 1] == p;
        }
      }
    }
  }

  /** The recursive traversal: the node, then its left subtree, then its right subtree. */
  ghost function TreeSum<V>(nodes: set<Path>, p: Path, m: map<Path, V>, func: V -> int): int
    decreases Under(nodes, p)
  {
    if p !in nodes then 0
    else
      KidShrinks(nodes, p, false);
      KidShrinks(nodes, p, true);
      (if p in m then func(m[p]) else 0) +
      TreeSum(nodes, p + [false], m, func) + TreeSum(nodes, p + [true], m, func)
  }

  lemma {:induction false} FuncResultConcat<V>(xs: seq<Path>, ys: seq<Path>, m: map<Path, V>, func: V -> int, acc: int)
    requires forall p :: p in m ==> func(m[p]) >= 0
    ensures FuncResult(xs + ys, m, func, acc) == FuncResult(ys, m, func, FuncResult(xs, m, func, acc))
  {
    if xs == [] {
      assert xs + ys == ys;
    } else {
      assert (xs + ys)[1..] == xs[1..] + ys;
      FuncResultConcat(xs[1..], ys, m, func, if xs[0] in m then acc + func(m[xs[0]]) else acc);
    }
  }

  /** When the function never fails, the stack-driven walk adds up what the recursion does. */
  lemma {:induction false} FuncResultIsTreeSum<V>(nodes: set<Path>, p: Path, m: map<Path, V>, func: V -> int, acc: int)
    requires forall p :: p in m ==> func(m[p]) >= 0
    ensures FuncResult(PreOrder(nodes, p, false), m, func, acc) == acc + TreeSum(nodes, p, m, func)
    decreases Under(nodes, p)
  {
    if p in nodes {
      KidShrinks(nodes, p, false);
      KidShrinks(nodes, p, true);
      var ls, rs := PreOrder(nodes, p + [false], false), PreOrder(nodes, p + [true], false);
      var acc1 := if p in m then acc + func(m[p]) else acc;
      assert PreOrder(nodes, p, false) == [p] + ls + rs;
      assert ([p] + ls + rs)[1..] == ls + rs;
      FuncResultConcat(ls, rs, m, func, acc1);
      FuncResultIsTreeSum(nodes, p + [false], m, func, acc1);
      FuncResultIsTreeSum(nodes, p + [true], m, func, acc1 + TreeSum(nodes, p + [false], m, func));
    }
  }

  lemma {:induction false} BeforeNotPrefix(p: Path, q: Path, b: bool)
    requires Before(p, q, b)
    ensures !(q <= p)
  {
    if p != [] && p[0] == q[0] {
      BeforeNotPrefix(p[1..], q[1..], b);
    }
  }

  /** Nothing that comes later is the head or leads to it. */
  lemma SortedHead(p: Path, rest: seq<Path>, b: bool)
    requires Sorted([p] + rest, b)
    ensures Sorted(rest, b) && forall x :: x in rest ==> !(x <= p)
  {
    var all := [p] + rest;
    forall i, j | 0 <= i < j < |rest| ensures Before(rest[i], rest[j], b) {
      assert Before(all[i + 1], all[j + 1], b);
    }
    forall x | x in rest ensures !(x <= p) {
      var j :| 0 <= j < |rest| && rest[j] == x;
      assert Before(all[0], all[j + 1], b);
      BeforeNotPrefix(p, x, b);
    }
  }

  lemma {:induction false} PreOrderSame(nodes: set<Path>, fewer: set<Path>, p: Path, b: bool)
    requires fewer <= nodes && forall x :: x in PreOrder(nodes, p, b) ==> x in fewer
    ensures PreOrder(fewer, p, b) == PreOrder(nodes, p, b)
    decreases Under(nodes, p)
  {
    if p in nodes {
      KidShrinks(nodes, p, b);
      KidShrinks(nodes, p, !b);
      var ls, rs := PreOrder(nodes, p + [b], b), PreOrder(nodes, p + [!b], b);
      assert forall x :: x in ls || x in rs ==> x in PreOrder(nodes, p, b);
      PreOrderSame(nodes, fewer, p + [b], b);
      PreOrderSame(nodes, fewer, p + [!b], b);
      assert p in [p] + ls + rs;
    }
  }

  /** Taking nodes out that are not still to be visited leaves the rest of the visit as it was. */
  lemma {:induction false} FlatSame(nodes: set<Path>, fewer: set<Path>, stack: seq<Path>, b: bool)
    requires fewer <= nodes && forall x :: x in Flat(nodes, stack, b) ==> x in fewer
    ensures Flat(fewer, stack, b) == Flat(nodes, stack, b)
  {
    if stack != [] {
      var xs, ys := PreOrder(nodes, stack[0], b), Flat(nodes, stack[1..], b);
      assert forall x :: x in xs || x in ys ==> x in xs + ys;
      PreOrderSame(nodes, fewer, stack[0], b);
      FlatSame(nodes, fewer, stack[1..], b);
    }
  }

  lemma {:induction false} StackInFlat(nodes: set<Path>, stack: seq<Path>, i: nat, b: bool)
    requires i < |stack| && stack[i] in nodes
    ensures stack[i] in Flat(nodes, stack, b)
  {
    if i > 0 {
      assert stack[1..][i - 1] == stack[i];
      StackInFlat(nodes, stack[1..], i - 1, b);
    }
  }

  /** A result only depends on the entries under the prefixes visited. */
  lemma {:induction false} FuncResultSame<V>(ps: seq<Path>, m: map<Path, V>, d: Path, func: V -> int,
                                              gone: V -> bool, acc: int)
    requires d !in ps
    ensures FuncResult(ps, m - {d}, func, acc) == FuncResult(ps, m, func, acc)
    ensures Dropped(ps, m - {d}, func, gone) == Dropped(ps, m, func, gone)
  {
    if ps != [] {
      FuncResultSame(ps[1..], m, d, func, gone, if ps[0] in m then acc + func(m[ps[0]]) else acc);
    }
  }

  /** The callback may release the node it is given; no node still on the stack is touched. */
  method ReleaseVisited<V>(t: Trie<V>, n: Node<V>, stack: seq<Node<V>>)
    requires t.Valid() && t.Has(n) && AllIn(t, stack)
    requires Sorted([n.prefix] + Flat(t.at.Keys, PathsOf(stack), false), false)
    modifies t`root, t`entries, t`at, t`m, t`destroyed, t`freed, t.repr
    ensures t.Valid() && AllIn(t, stack)
    ensures t.m == old(t.m) - {n.prefix}
    ensures Flat(t.at.Keys, PathsOf(stack), false) == old(Flat(t.at.Keys, PathsOf(stack), false))
    ensures old(t.Tidy()) ==> t.Tidy()
  {
    ghost var nodes, ps := t.at.Keys, PathsOf(stack);
    ghost var rest := Flat(nodes, ps, false);
    SortedHead(n.prefix, rest, false);
    ghost var _, _ := t.Release(n);
    FlatInNodes(nodes, ps, false);
    FlatSame(nodes, t.at.Keys, ps, false);
    forall i | 0 <= i < |stack| ensures t.Has(stack[i]) {
      StackInFlat(nodes, ps, i, false);
    }
  }

  lemma {:induction false} FlatInNodes(nodes: set<Path>, stack: seq<Path>, b: bool)
    ensures forall x :: x in Flat(nodes, stack, b) ==> x in nodes
  {
    if stack != [] {
      PreOrderUnder(nodes, stack[0], b);
      FlatInNodes(nodes, stack[1..], b);
    }
  }

  /** The entries left after one visit. */
  ghost function AfterVisit<V>(m: map<Path, V>, p: Path, gone: V -> bool): map<Path, V> {
    if p in m && gone(m[p]) then m - {p} else m
  }

  /** One turn of the loop of bst_subtree_func; an inactive node counts as a return of 0. */
  method Turn<V>(t: Trie<V>, stack: seq<Node<V>>, func: V -> int, gone: V -> bool)
    returns (ret: int, stack': seq<Node<V>>)
    requires t.Valid() && AllIn(t, stack) && stack != []
    requires Sorted(Flat(t.at.Keys, PathsOf(stack), false), false)
    modifies t`root, t`entries, t`at, t`m, t`destroyed, t`freed, t.repr
    ensures t.Valid() && AllIn(t, stack')
    ensures var rest := old(Flat(t.at.Keys, PathsOf(stack), false));
            && rest != []
            && Flat(t.at.Keys, PathsOf(stack'), false) == rest[1..]
            && ret == (if rest[0] in old(t.m) then func(old(t.m)[rest[0]]) else 0)
            && t.m == AfterVisit(old(t.m), rest[0], gone)
    ensures old(t.Tidy()) ==> t.Tidy()
  {
    var n;
    n, stack' := Visit(t, stack, false);
    t.Known(n.prefix);
    ret := 0;
    if n.priv.Some? {
      var v := n.priv.value;
      ret := func(v);
      if gone(v) {
        ReleaseVisited(t, n, stack');
      }
    }
  }

  /** What is still to come from `ps`, given the entries `m` and the sum so far. */
  lemma VisitOne<V>(ps: seq<Path>, m: map<Path, V>, func: V -> int, gone: V -> bool, acc: int)
    requires ps != [] && Sorted(ps, false)
    ensures var p, m' := ps[0], AfterVisit(m, ps[0], gone);
            var ret := if p in m then func(m[p]) else 0;
            && FuncResult(ps, m, func, acc) == (if ret < 0 then ret else FuncResult(ps[1..], m', func, acc + ret))
            && m - Dropped(ps, m, func, gone) ==
               (if ret < 0 then m' else m' - Dropped(ps[1..], m', func, gone))
            && Sorted(ps[1..], false)
  {
    var p := ps[0];
    assert ps == [p] + ps[1..];
    SortedHead(p, ps[1..], false);
    FuncResultSame(ps[1..], m, p, func, gone, if p in m then acc + func(m[p]) else acc);
  }

  lemma StackNotEmpty<V>(t: Trie<V>, stack: seq<Node<V>>)
    requires AllIn(t, stack) && stack != []
    ensures Flat(t.at.Keys, PathsOf(stack), false) != []
  {
    assert PathsOf(stack)[0] in t.at.Keys;
  }

  /** What visiting `rest` in turn comes to, with these entries and this sum so far: the result and
      the entries left. */
  ghost function Outcome<V>(rest: seq<Path>, m: map<Path, V>, func: V -> int, gone: V -> bool, acc: int)
      : (int, map<Path, V>)
    decreases |rest|
  {
    if rest == [] then (acc, m)
    else
      var ret := if rest[0] in m then func(m[rest[0]]) else 0;
      var m' := AfterVisit(m, rest[0], gone);
      if ret < 0 then (ret, m') else Outcome(rest[1..], m', func, gone, acc + ret)
  }

  lemma {:induction false} OutcomeIs<V>(rest: seq<Path>, m: map<Path, V>, func: V -> int, gone: V -> bool, acc: int)
    requires Sorted(rest, false)
    ensures Outcome(rest, m, func, gone, acc) == (FuncResult(rest, m, func, acc), m - Dropped(rest, m, func, gone))
    decreases |rest|
  {
    if rest != [] {
      VisitOne(rest, m, func, gone, acc);
      var ret := if rest[0] in m then func(m[rest[0]]) else 0;
      if ret >= 0 {
        OutcomeIs(rest[1..], AfterVisit(m, rest[0], gone), func, gone, acc + ret);
      }
    } else {
      assert m - Dropped(rest, m, func, gone) == m;
    }
  }

  /** bst_subtree_func with a callback that returns `func` of the entry and, as the service
      table's callbacks do, releases the node whenever `gone` says so. */
  method SubtreeFunc<V>(t: Trie<V>, start: Node<V>, func: V -> int, gone: V -> bool) returns (count: int)
    requires t.Valid() && t.Has(start)
    modifies t`root, t`entries, t`at, t`m, t`destroyed, t`freed, t.repr
    ensures t.Valid()
    ensures var ps := PreOrder(old(t.at.Keys), start.prefix, false);
            count == FuncResult(ps, old(t.m), func, 0) && t.m == old(t.m) - Dropped(ps, old(t.m), func, gone)
    ensures old(t.Tidy()) ==> t.Tidy()
  {
    ghost var rest := PreOrder(t.at.Keys, start.prefix, false);
    PreOrderSorted(t.at.Keys, start.prefix, false);
    OutcomeIs(rest, t.m, func, gone, 0);
    var stack := [start];
    assert PathsOf(stack) == [start.prefix] + [];
    PushFlat(t.at.Keys, start.prefix, [], false);
    assert Flat(t.at.Keys, PathsOf(stack), false) == rest == rest[0..];
    count := Drain(t, stack, func, gone, rest);
  }

  /** What one visit, with its result and the entries it leaves, makes of the outcome. */
  lemma OutcomeFirst<V>(rest: seq<Path>, m: map<Path, V>, func: V -> int, gone: V -> bool, acc: int,
                        ret: int, m': map<Path, V>)
    requires rest != [] && ret == (if rest[0] in m then func(m[rest[0]]) else 0) && m' == AfterVisit(m, rest[0], gone)
    ensures Outcome(rest, m, func, gone, acc) ==
            if ret < 0 then (ret, m') else Outcome(rest[1..], m', func, gone, acc + ret)
  {
  }

  lemma SortedFrom(all: seq<Path>, k: nat, b: bool)
    requires Sorted(all, b) && k <= |all|
    ensures Sorted(all[k..], b)
    ensures k < |all| ==> all[k..] != [] && all[k..][1..] == all[k + 1..]
  {
  }

  /** The visits still to come, and what they come to. */
  ghost function Ahead<V>(t: Trie<V>, stack: seq<Node<V>>): seq<Path>
    reads t
  {
    Flat(t.at.Keys, PathsOf(stack), false)
  }

  ghost function From<V>(t: Trie<V>, stack: seq<Node<V>>, func: V -> int, gone: V -> bool, acc: int)
      : (int, map<Path, V>)
    reads t
  {
    Outcome(Ahead(t, stack), t.m, func, gone, acc)
  }

  /** A round of the loop takes the outcome one visit closer; a negative result is returned at once. */
  method TurnOn<V>(t: Trie<V>, stack: seq<Node<V>>, func: V -> int, gone: V -> bool, count: int,
                   ghost all: seq<Path>, ghost k: nat, ghost goal: (int, map<Path, V>))
    returns (done: bool, count': int, stack': seq<Node<V>>)
    requires t.Valid() && AllIn(t, stack) && stack != []
    requires Sorted(all, false) && k <= |all| && Ahead(t, stack) == all[k..]
    requires From(t, stack, func, gone, count) == goal
    modifies t`root, t`entries, t`at, t`m, t`destroyed, t`freed, t.repr
    ensures t.Valid() && AllIn(t, stack') && k < |all| && Ahead(t, stack') == all[k + 1..]
    ensures goal == if done then (count', t.m) else From(t, stack', func, gone, count')
    ensures old(t.Tidy()) ==> t.Tidy()
  {
    StackNotEmpty(t, stack);
    SortedFrom(all, k, false);
    var ret;
    ret, stack' := Turn(t, stack, func, gone);
    OutcomeFirst(all[k..], old(t.m), func, gone, count, ret, t.m);
    done, count' := ret < 0, if ret < 0 then ret else count + ret;
  }

  /** The loop of bst_subtree_func. */
  method Drain<V>(t: Trie<V>, stack0: seq<Node<V>>, func: V -> int, gone: V -> bool, ghost all: seq<Path>)
    returns (count: int)
    requires t.Valid() && AllIn(t, stack0) && Sorted(all, false) && Ahead(t, stack0) == all[0..]
    modifies t`root, t`entries, t`at, t`m, t`destroyed, t`freed, t.repr
    ensures t.Valid() && old(From(t, stack0, func, gone, 0)) == (count, t.m)
    ensures old(t.Tidy()) ==> t.Tidy()
  {
    var stack, done := stack0, false;
    ghost var k, goal := 0, From(t, stack0, func, gone, 0);
    count := 0;
    while stack != []
      invariant t.Valid() && AllIn(t, stack)
      invariant k <= |all| && Ahead(t, stack) == all[k..] && From(t, stack, func, gone, count) == goal
      invariant old(t.Tidy()) ==> t.Tidy()
      decreases |all| - k
      modifies t`root, t`entries, t`at, t`m, t`destroyed, t`freed, t.repr
    {
      done, count, stack := TurnOn(t, stack, func, gone, count, all, k, goal);
      if done {
        return;
      }
      k := k + 1;
    }
  }
}
