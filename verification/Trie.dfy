/** The bitwise trie of `src/stack/bst.c` as a heap of linked nodes.

    Two ghost fields picture the heap: `at` says which node stands for which
    prefix, `m` is the abstract contents (the active nodes and their private
    pointers). `Valid()` says that the heap agrees with the picture, and every
    operation is specified by what it does to `m`. */
module Trie {
  import opened Wrappers
  import opened PrefixMap

  class Node<V> {
    const tree: Trie<V>
    const parent: Node<V>
    const prefixBits: nat
    const prefix: Path
    var left: Node?<V>
    var right: Node?<V>
    var priv: Option<V>
    /** The node has been freed. */
    ghost var gone: bool

    constructor Root(t: Trie<V>)
      ensures tree == t && parent == this && prefixBits == 0 && prefix == []
      ensures left == null && right == null && priv == None && !gone
    {
      tree, parent, prefixBits, prefix := t, this, 0, [];
      left, right, priv, gone := null, null, None, false;
    }

    constructor Child(up: Node<V>, key: Path)
      requires up.prefixBits < |key|
      ensures tree == up.tree && parent == up
      ensures prefixBits == up.prefixBits + 1 && prefix == key[..up.prefixBits + 1]
      ensures left == null && right == null && priv == None && !gone
    {
      tree, parent, prefixBits, prefix := up.tree, up, up.prefixBits + 1, key[..up.prefixBits + 1];
      left, right, priv, gone := null, null, None, false;
    }
  }

  function Get<V>(m: map<Path, V>, p: Path): Option<V> {
    if p in m then Some(m[p]) else None
  }

  ghost function Parent(p: Path): Path
    requires p != []
  {
    p[..|p| - 1]
  }

  lemma SnocOnly(p: Path, q: Path, b: bool)
    ensures forall x {:trigger p + [x]} :: p + [x] == q + [b] ==> p == q && x == b
  {
    forall x | p + [x] == q + [b] ensures p == q && x == b {
      assert p == Parent(p + [x]) && x == (p + [x])[|p|];
    }
  }

  lemma NextBit(key: Path, bits: nat, k: nat)
    requires k < bits <= |key|
    ensures key[..bits][..k + 1] == key[..bits][..k] + [key[k]]
  {
  }

  /** An inactive childless node. */
  ghost predicate DeadLeaf(nodes: set<Path>, active: set<Path>, p: Path) {
    p in nodes && p !in active && p + [false] !in nodes && p + [true] !in nodes
  }

  /** No dead leaf, the root and `x` excepted. */
  ghost predicate TidyBut(nodes: set<Path>, active: set<Path>, x: Path) {
    forall p {:trigger DeadLeaf(nodes, active, p)} :: p != [] && p != x ==> !DeadLeaf(nodes, active, p)
  }

  /** A fresh node under `up` moves the one tolerated dead leaf down to it. */
  lemma GrowTidy(nodes: set<Path>, active: set<Path>, up: Path, b: bool)
    requires up in nodes && TidyBut(nodes, active, up)
    ensures TidyBut(nodes + {up + [b]}, active, up + [b])
  {
    var nodes' := nodes + {up + [b]};
    forall p {:trigger DeadLeaf(nodes', active, p)} | p != [] && p != up + [b] ensures !DeadLeaf(nodes', active, p) {
      assert p != up ==> !DeadLeaf(nodes, active, p);
      assert up + [b] == if b then up + [true] else up + [false];
    }
  }

  /** The tolerated node is no dead leaf after all. */
  lemma LiveIsTidy(nodes: set<Path>, active: set<Path>, p: Path)
    requires TidyBut(nodes, active, p) && !DeadLeaf(nodes, active, p)
    ensures TidyBut(nodes, active, [])
  {
    forall q {:trigger DeadLeaf(nodes, active, q)} | q != [] ensures !DeadLeaf(nodes, active, q) {
    }
  }

  lemma DropTidy(nodes: set<Path>, active: set<Path>, p: Path)
    requires TidyBut(nodes, active, [])
    ensures TidyBut(nodes, active - {p}, p)
  {
    forall q {:trigger DeadLeaf(nodes, active - {p}, q)} | q != [] && q != p ensures !DeadLeaf(nodes, active - {p}, q) {
      assert !DeadLeaf(nodes, active, q);
    }
  }

  /** Removing a childless node can only leave its parent as a dead leaf. */
  lemma PruneTidy(nodes: set<Path>, active: set<Path>, p: Path)
    requires p !in active && TidyBut(nodes, active, p)
    ensures TidyBut(nodes - {p}, active, if p == [] then [] else Parent(p))
  {
    var nodes' := nodes - {p};
    forall q {:trigger DeadLeaf(nodes', active, q)} | q != [] && (p != [] ==> q != Parent(p))
      ensures !DeadLeaf(nodes', active, q)
    {
      assert !DeadLeaf(nodes, active, q) || q == p;
      assert p != [] ==> forall b {:trigger q + [b]} :: q + [b] == p ==> q == Parent(p);
    }
  }

  /** Every node of `a` is the same node in `b`. */
  ghost predicate StillIn<V>(a: map<Path, Node<V>>, b: map<Path, Node<V>>) {
    forall p :: p in a ==> p in b && b[p] == a[p]
  }

  /** Only nodes on the way to `p` were taken out; the others are the same nodes. */
  ghost predicate PrunedBelow<V>(before: map<Path, Node<V>>, after: map<Path, Node<V>>, p: Path) {
    && StillIn(after, before)
    && (forall q :: q in before && q !in after ==> q <= p)
  }

  /** The prefixes of `p` with more than `k` bits; as a list, longest first. */
  ghost function Cut(p: Path, k: int): (r: set<Path>)
    requires -1 <= k < |p|
    ensures forall q :: q in r <==> q <= p && |q| > k
  {
    assert forall q :: q <= p ==> q == p[..|q|];
    set i | k < i <= |p| :: p[..i]
  }

  ghost function Branch(p: Path, k: int): (r: seq<Path>)
    requires -1 <= k < |p|
    ensures |r| == |p| - k && r[0] == p
  {
    seq(|p| - k, i requires 0 <= i < |p| - k => p[..|p| - i])
  }

  /** Freeing upward from `p` took its branch, down to the first node of `k` bits that is the root, is active or
      has a child left; the root goes only by itself. */
  ghost predicate Pruned<V>(before: map<Path, Node<V>>, after: map<Path, Node<V>>, active: set<Path>, p: Path, k: int) {
    && -1 <= k < |p| && (k == -1 <==> p == [])
    && after == before - Cut(p, k)
    && (k <= 0 || p[..k] in active || p[..k] + [false] in after || p[..k] + [true] in after)
  }

  ghost function Under(nodes: set<Path>, r: Path): set<Path> {
    set p | p in nodes && r <= p
  }

  /** Those of a list of prefixes that had an entry in `m`, in order. */
  ghost function Active<V>(ps: seq<Path>, m: map<Path, V>): seq<Path> {
    if ps == [] then []
    else
      var last := ps[|ps| - 1];
      Active(ps[..|ps| - 1], m) + if last in m then [last] else []
  }

  /** Exactly the prefixes of `gone`, each once. */
  ghost predicate ListsOnce(ps: seq<Path>, gone: set<Path>) {
    multiset(ps) == multiset(gone)
  }

  lemma {:induction false} ActiveCount<V>(ps: seq<Path>, m: map<Path, V>, p: Path)
    ensures multiset(Active(ps, m))[p] == if p in m then multiset(ps)[p] else 0
  {
    if ps != [] {
      var k := |ps| - 1;
      assert ps == ps[..k] + [ps[k]];
      ActiveCount(ps[..k], m, p);
    }
  }

  /** Visiting every node once visits every entry once. */
  lemma ActiveListsEntries<V>(ps: seq<Path>, m: map<Path, V>, nodes: set<Path>)
    requires ListsOnce(ps, nodes) && m.Keys <= nodes
    ensures ListsOnce(Active(ps, m), m.Keys)
  {
    forall p ensures multiset(Active(ps, m))[p] == multiset(m.Keys)[p] {
      ActiveCount(ps, m, p);
    }
  }

  /** The teardown has freed `ps`, the part of `sub` that is not `live`, and their entries. */
  ghost predicate Torn<V>(ps: seq<Path>, sub: set<Path>, live: set<Path>, m0: map<Path, V>, m: map<Path, V>) {
    live <= sub && ListsOnce(ps, sub - live) && m == m0 - (sub - live)
  }

  lemma BranchMore<V>(p: Path, k: int, c: map<Path, V>, was: seq<Path>)
    requires 0 < k < |p|
    ensures Branch(p, k - 1) == Branch(p, k) + [p[..k]]
    ensures c - Cut(p, k - 1) == c - Cut(p, k) - {p[..k]}
    ensures was + Branch(p, k - 1) == was + Branch(p, k) + [p[..k]]
    ensures p[..k] != [] && Parent(p[..k]) == p[..k - 1]
  {
    assert p[..k] <= p;
    assert Cut(p, k - 1) == Cut(p, k) + {p[..k]};
  }

  lemma BranchOne<V>(p: Path, c: map<Path, V>, was: seq<Path>)
    ensures c - {p} == c - Cut(p, |p| - 1) && was + [p] == was + Branch(p, |p| - 1)
  {
    assert Branch(p, |p| - 1) == [p];
    assert Cut(p, |p| - 1) == {p};
  }

  lemma PrunedOnly<V>(before: map<Path, Node<V>>, after: map<Path, Node<V>>, active: set<Path>, p: Path, k: int)
    requires Pruned(before, after, active, p, k)
    ensures PrunedBelow(before, after, p)
  {
  }

  lemma MinusTwice<V>(c: map<Path, V>, s: set<Path>, p: Path)
    requires p in s
    ensures c - (s - {p}) - {p} == c - s
  {
  }

  lemma TornMore<V>(ps: seq<Path>, sub: set<Path>, live: set<Path>, m0: map<Path, V>, m: map<Path, V>, p: Path)
    requires Torn(ps, sub, live, m0, m) && p in live
    ensures Torn(ps + [p], sub, live - {p}, m0, m - {p})
    ensures p in m <==> p in m0
    ensures Active(ps + [p], m0) == Active(ps, m0) + if p in m then [p] else []
  {
    assert sub - (live - {p}) == sub - live + {p};
    assert (ps + [p])[..|ps|] == ps;
  }

  lemma TornAll<V>(ps: seq<Path>, sub: set<Path>, r: Path, m0: map<Path, V>, m: map<Path, V>,
                   f0: seq<Path>, d0: seq<Path>)
    requires Torn(ps, sub, {r}, m0, m)
    ensures ListsOnce(ps + [r], sub) && m - {r} == m0 - sub
    ensures f0 + ps + [r] == f0 + (ps + [r])
    ensures d0 + Active(ps, m0) + (if r in m then [r] else []) == d0 + Active(ps + [r], m0)
  {
    TornMore(ps, sub, {r}, m0, m, r);
    assert sub - ({r} - {r}) == sub;
    ConcatAssoc(f0, ps, [r]);
    ConcatAssoc(d0, Active(ps, m0), if r in m then [r] else []);
  }

  ghost predicate Closed(live: set<Path>, r: Path) {
    forall q {:trigger Parent(q)} :: q in live && q != r ==> q != [] && Parent(q) in live && r <= Parent(q)
  }

  /** A set of prefixes closed upwards to `r`, in which `r` has no child, is just `r`. */
  lemma OnlyTop(live: set<Path>, r: Path, p: Path)
    requires Closed(live, r) && r + [false] !in live && r + [true] !in live
    requires p in live && r <= p
    ensures p == r
    decreases |p|
  {
    if p != r {
      assert p == if p[|p| - 1] then Parent(p) + [true] else Parent(p) + [false];
      OnlyTop(live, r, Parent(p));
    }
  }

  /** Labels and parents, which never change. */
  ghost predicate Labelled<V>(at: map<Path, Node<V>>, p: Path)
    requires p in at
  {
    var n := at[p];
    && n.prefix == p
    && (if p == [] then n.parent == n else Parent(p) in at && n.parent == at[Parent(p)])
  }

  ghost function Kid<V>(at: map<Path, Node<V>>, p: Path): Node?<V> {
    if p in at then at[p] else null
  }

  /** The links and the entry that the node for `p` has according to the picture. */
  ghost predicate Fits<V>(at: map<Path, Node<V>>, m: map<Path, V>, p: Path,
                          left: Node?<V>, right: Node?<V>, priv: Option<V>)
  {
    left == Kid(at, p + [false]) && right == Kid(at, p + [true]) && priv == Get(m, p)
  }

  /** A node added elsewhere, or right below `p` on side `b`. */
  lemma FitsMore<V>(at: map<Path, Node<V>>, m: map<Path, V>, p: Path, l: Node?<V>, r: Node?<V>, v: Option<V>,
                    up: Path, b: bool, n: Node<V>)
    requires Fits(at, m, p, l, r, v)
    ensures Fits(at[up + [b] := n], m, p, if p == up && !b then n else l, if p == up && b then n else r, v)
  {
    SnocOnly(p, up, b);
  }

  /** A node taken out elsewhere, or right below `p` on side `b`. */
  lemma FitsLess<V>(at: map<Path, Node<V>>, m: map<Path, V>, p: Path, l: Node?<V>, r: Node?<V>, v: Option<V>,
                    up: Path, b: bool)
    requires Fits(at, m, p, l, r, v)
    ensures Fits(at - {up + [b]}, m, p, if p == up && !b then null else l, if p == up && b then null else r, v)
  {
    SnocOnly(p, up, b);
  }

  /** An entry taken out, at `p` or elsewhere. */
  lemma FitsDrop<V>(at: map<Path, Node<V>>, m: map<Path, V>, m': map<Path, V>, p: Path,
                    l: Node?<V>, r: Node?<V>, v: Option<V>, d: Path)
    requires Fits(at, m, p, l, r, v) && m' == m - {d}
    ensures Fits(at, m', p, l, r, if p == d then None else v)
  {
  }

  lemma CountDrop<V>(m: map<Path, V>, m': map<Path, V>, d: Path, nodes: set<Path>)
    requires m' == m - {d} && m.Keys <= nodes
    ensures |m'| == |m| - (if d in m then 1 else 0) && m'.Keys <= nodes
  {
    assert m'.Keys == m.Keys - {d};
    assert |m'| == |m'.Keys| && |m| == |m.Keys|;
  }

  class Trie<V> {
    var root: Node?<V>
    var entries: nat

    ghost var at: map<Path, Node<V>>
    ghost var repr: set<Node<V>>
    ghost var m: map<Path, V>
    /** The prefixes of the nodes whose destroy callback ran, and of those freed, in order. */
    ghost var destroyed: seq<Path>
    ghost var freed: seq<Path>

    ghost function Slot(p: Path): Node?<V>
      reads this
    {
      Kid(at, p)
    }

    /** The node for `p` is labelled `p`, and its fields are those of the picture. */
    ghost predicate NodeOk(p: Path)
      requires p in at
      reads this, at[p]
    {
      var n := at[p];
      && n.tree == this
      && n.prefix == p
      && n.prefixBits == |p| && !n.gone
      && (if p == [] then n.parent == n else Parent(p) in at && n.parent == at[Parent(p)])
      && Fits(at, m, p, n.left, n.right, n.priv)
    }

    ghost predicate Valid()
      reads this, repr
    {
      && root == Slot([])
      && (root == null ==> at == map[])
      && m.Keys <= at.Keys
      && entries == |m|
      && (forall p :: p in at ==> at[p] in repr)
      && forall p {:trigger NodeOk(p)} :: p in at ==> NodeOk(p)
    }

    ghost predicate Tidy()
      reads this
    {
      TidyBut(at.Keys, m.Keys, [])
    }

    ghost predicate Has(n: Node<V>)
      reads this
    {
      n.prefix in at && at[n.prefix] == n
    }

    lemma Known(p: Path)
      requires Valid() && p in at
      ensures NodeOk(p)
    {
    }

    lemma Ancestors(p: Path, q: Path)
      requires Valid() && p in at && q <= p
      ensures q in at
      decreases |p|
    {
      if q != p {
        Known(p);
        assert q <= Parent(p);
        Ancestors(Parent(p), q);
      }
    }

    /** Nothing lies below a childless node. */
    lemma LeafHasNoKids(p: Path)
      requires Valid() && p in at && at[p].left == null && at[p].right == null
      ensures forall q {:trigger Parent(q)} :: q in at && q != [] ==> Parent(q) != p
    {
      Known(p);
      forall q {:trigger Parent(q)} | q in at && q != [] ensures Parent(q) != p {
        assert q == if q[|q| - 1] then Parent(q) + [true] else Parent(q) + [false];
      }
    }

    /** Going up reaches a node again, one bit shorter, or stays at the root. */
    lemma StepUp(n: Node<V>)
      requires Valid() && Has(n)
      ensures Has(n.parent) && (n.parent == n <==> n.prefix == []) && n.parent.prefix <= n.prefix
      ensures n.parent != n ==> n.parent.prefixBits < n.prefixBits
    {
      Known(n.prefix);
      if n.prefix != [] {
        Known(Parent(n.prefix));
      }
    }

    /** Which link of the parent leads to a node, told by the node's last bit. */
    lemma LinkFromParent(n: Node<V>)
      requires Valid() && Has(n)
      ensures Has(n.parent) && (n.parent == n <==> n.prefix == [])
      ensures n.prefix != [] ==>
        var up, b := n.parent.prefix, n.prefix[|n.prefix| - 1];
        n.prefix == up + [b] && (n.parent.right == n <==> b) && (n.parent.left == n <==> !b)
    {
      var path := n.prefix;
      Known(path);
      if path != [] {
        var up := Parent(path);
        Known(up);
        assert path == if path[|path| - 1] then up + [true] else up + [false];
        assert (up + [true])[|up|] != (up + [false])[|up|];
        if up + [true] in at { Known(up + [true]); }
        if up + [false] in at { Known(up + [false]); }
      }
    }

    constructor ()
      ensures Valid() && Tidy() && m == map[] && root == null && repr == {}
      ensures destroyed == [] && freed == []
    {
      root, entries, at, repr, m, destroyed, freed := null, 0, map[], {}, map[], [], [];
    }

    ghost function PathOf(n: Node?<V>): Option<Path> {
      if n == null then None else Some(n.prefix)
    }

    /** Where the walk stops, no longer entry can cover the key. */
    lemma StopIsLongest(goal: Path, k: nat, want: Option<V -> bool>)
      requires Valid() && k <= |goal| && (k < |goal| ==> goal[..k + 1] !in at)
      ensures IsLongest(m, goal, want, Best(m, goal, want, k + 1))
    {
      forall q {:trigger Candidate(m, goal, want, q)} | Candidate(m, goal, want, q) ensures |q| < k + 1 {
        if |q| > k {
          Ancestors(q, goal[..k + 1]);
        }
      }
      BestIsLongest(m, goal, want, k + 1);
    }

    /** bst_node_find_longest_prefix: follow the key's bits from the root as far as nodes exist. */
    method Walk(key: Path, bits: nat, want: Option<V -> bool>) returns (n: Node?<V>, prev: Node?<V>)
      requires Valid() && bits <= |key|
      ensures n == null <==> root == null
      ensures n == null ==> prev == null
      ensures n != null ==> Has(n) && n.prefixBits <= bits && n.prefix == key[..bits][..n.prefixBits]
      ensures n != null && n.prefixBits < bits ==> key[..bits][..n.prefixBits + 1] !in at
      ensures prev != null ==> Has(prev)
      ensures n != null ==> PathOf(prev) == Best(m, key[..bits], want, n.prefixBits + 1)
    {
      prev := null;
      if root == null {
        return null, null;
      }
      ghost var goal := key[..bits];
      n := root;
      Known([]);
      while true
        invariant n != null && Has(n) && n.prefixBits <= bits && n.prefix == goal[..n.prefixBits]
        invariant prev != null ==> Has(prev)
        invariant PathOf(prev) == Best(m, goal, want, n.prefixBits)
        decreases bits - n.prefixBits
      {
        var kid;
        kid, prev := Round(n, prev, key, bits, goal, want);
        if kid == null {
          break;
        }
        n := kid;
      }
    }

    /** One round of the walk: the next node, or NULL where it stops. */
    method Round(n: Node<V>, prev: Node?<V>, key: Path, bits: nat, ghost goal: Path, want: Option<V -> bool>)
      returns (kid: Node?<V>, prev': Node?<V>)
      requires Valid() && bits <= |key| && goal == key[..bits]
      requires Has(n) && n.prefixBits <= bits && n.prefix == goal[..n.prefixBits]
      requires (prev != null ==> Has(prev)) && PathOf(prev) == Best(m, goal, want, n.prefixBits)
      ensures (prev' != null ==> Has(prev')) && PathOf(prev') == Best(m, goal, want, n.prefixBits + 1)
      ensures kid == null && n.prefixBits < bits ==> goal[..n.prefixBits + 1] !in at
      ensures kid != null ==> Has(kid) && kid.prefixBits == n.prefixBits + 1 <= bits
      ensures kid != null ==> kid.prefix == goal[..kid.prefixBits]
    {
      prev' := Note(n, prev, goal, want);
      if bits == 0 || n.prefixBits == bits {
        return null, prev';
      }
      NextBit(key, bits, n.prefixBits);
      kid := Below(n, key[n.prefixBits]);
    }

    /** The walk's note of the last node that matches. */
    method Note(n: Node<V>, prev: Node?<V>, ghost goal: Path, want: Option<V -> bool>) returns (prev': Node?<V>)
      requires Valid() && Has(n) && n.prefixBits <= |goal| && n.prefix == goal[..n.prefixBits]
      requires (prev != null ==> Has(prev)) && PathOf(prev) == Best(m, goal, want, n.prefixBits)
      ensures (prev' != null ==> Has(prev')) && PathOf(prev') == Best(m, goal, want, n.prefixBits + 1)
    {
      Known(n.prefix);
      prev' := prev;
      if n.priv.Some? {
        if want.None? || want.value(n.priv.value) {
          prev' := n;
        }
      }
    }

    /** The walk's next node, on the side of a bit. */
    method Below(n: Node<V>, b: bool) returns (kid: Node?<V>)
      requires Valid() && Has(n)
      ensures kid == null <==> n.prefix + [b] !in at
      ensures kid != null ==> Has(kid) && kid.prefix == n.prefix + [b] && kid.prefixBits == n.prefixBits + 1
    {
      Known(n.prefix);
      assert n.prefix + [b] == if b then n.prefix + [true] else n.prefix + [false];
      if b {
        kid := n.right;
      } else {
        kid := n.left;
      }
      if kid != null {
        Known(n.prefix + [b]);
      }
    }

    /** bst_find_longest_prefix_match */
    method FindLongestPrefixMatch(key: Path, bits: nat, want: Option<V -> bool>) returns (r: Node?<V>)
      requires Valid() && bits <= |key|
      ensures r != null ==> Has(r) && r.priv.Some?
      ensures IsLongest(m, key[..bits], want, PathOf(r))
    {
      var n, prev := Walk(key, bits, want);
      if n != null {
        StopIsLongest(key[..bits], n.prefixBits, want);
        Known(n.prefix);
      }
      if n != null && n.priv.Some? && (want.None? || want.value(n.priv.value)) {
        return n;
      }
      if prev != null {
        Known(prev.prefix);
      }
      return prev;
    }

    /** Nothing lies below a prefix without a node. */
    lemma NothingBelow(path: Path)
      requires Valid() && path !in at
      ensures path + [false] !in at && path + [true] !in at
    {
      if path + [false] in at {
        Ancestors(path + [false], path);
      }
      if path + [true] in at {
        Ancestors(path + [true], path);
      }
    }

    /** The links of bst_create_node: a new node goes under `up`, on the side of its last bit. */
    method Hang(up: Node<V>, n: Node<V>, b: bool)
      requires Valid() && Has(up) && n !in repr && n.tree == this && n.parent == up && !n.gone
      requires n.prefix == up.prefix + [b] && n.prefixBits == |n.prefix| && n.prefix !in at
      requires n.left == null && n.right == null && n.priv == None
      modifies this`at, this`repr, up`left, up`right
      ensures Valid() && at == old(at)[n.prefix := n] && repr == old(repr) + {n}
      ensures n.left == null && n.right == null
    {
      ghost var path := n.prefix;
      Known(up.prefix);
      NothingBelow(path);
      assert Parent(path) == up.prefix;
      if b {
        up.right := n;
      } else {
        up.left := n;
      }
      at, repr := at[path := n], repr + {n};
      forall p {:trigger NodeOk(p)} | p in at && p != path ensures NodeOk(p) {
        assert old(NodeOk(p));
        FitsMore(old(at), m, p, old(at[p].left), old(at[p].right), old(at[p].priv), up.prefix, b, n);
      }
      assert NodeOk(path);
    }

    /** bst_create_node: hang one fresh node under `up`, on the side of the key's next bit. */
    method CreateNode(up: Node<V>, key: Path) returns (n: Node<V>)
      requires Valid() && Has(up) && up.prefixBits < |key|
      requires up.prefix == key[..up.prefixBits] && key[..up.prefixBits + 1] !in at
      modifies this`at, this`repr, up`left, up`right
      ensures Valid() && fresh(n) && n.prefix == key[..up.prefixBits + 1] && n.prefixBits == up.prefixBits + 1
      ensures at == old(at)[n.prefix := n] && repr == old(repr) + {n}
      ensures n.left == null && n.right == null
    {
      Known(up.prefix);
      n := new Node<V>.Child(up, key);
      assert n.prefix == up.prefix + [key[up.prefixBits]];
      Hang(up, n, key[up.prefixBits]);
    }

    /** One round of bst_node_new. */
    method GrowOne(up: Node<V>, key: Path) returns (n: Node<V>)
      requires Valid() && Has(up) && up.prefixBits < |key|
      requires up.prefix == key[..up.prefixBits] && key[..up.prefixBits + 1] !in at
      modifies this`at, this`repr, up`left, up`right
      ensures Valid() && Has(n) && fresh(n) && repr == old(repr) + {n} && StillIn(old(at), at)
      ensures n.prefixBits == up.prefixBits + 1 && n.prefix == key[..n.prefixBits]
      ensures n.prefixBits < |key| ==> key[..n.prefixBits + 1] !in at
      ensures old(TidyBut(at.Keys, m.Keys, up.prefix)) ==> TidyBut(at.Keys, m.Keys, n.prefix)
    {
      ghost var nodes := at.Keys;
      if TidyBut(nodes, m.Keys, up.prefix) {
        GrowTidy(nodes, m.Keys, up.prefix, key[up.prefixBits]);
      }
      assert key[..up.prefixBits + 1] == up.prefix + [key[up.prefixBits]];
      n := CreateNode(up, key);
      assert at.Keys == nodes + {n.prefix};
      LeafHasNoKids(n.prefix);
      if n.prefixBits < |key| {
        assert Parent(key[..n.prefixBits + 1]) == n.prefix;
      }
    }

    /** bst_node_new: grow the chain of single-bit nodes down to the whole prefix. */
    method NewChain(top: Node<V>, key: Path, bits: nat) returns (n: Node<V>)
      requires Valid() && Has(top) && top.prefixBits < bits <= |key|
      requires top.prefix == key[..top.prefixBits] && key[..top.prefixBits + 1] !in at
      modifies this`at, this`repr, top`left, top`right
      ensures Valid() && fresh(repr - old(repr)) && StillIn(old(at), at)
      ensures Has(n) && n.prefix == key[..bits]
      ensures old(Tidy()) ==> TidyBut(at.Keys, m.Keys, n.prefix)
    {
      var up := top;
      while true
        invariant Valid() && Has(up) && up.prefixBits < bits
        invariant up.prefix == key[..up.prefixBits] && key[..up.prefixBits + 1] !in at
        invariant up == top || fresh(up)
        invariant fresh(repr - old(repr)) && StillIn(old(at), at)
        invariant old(Tidy()) ==> TidyBut(at.Keys, m.Keys, up.prefix)
        decreases bits - up.prefixBits
      {
        n := GrowOne(up, key);
        if up.prefixBits + 1 != bits {
          up := n;
        } else {
          break;
        }
      }
    }

    /** The root that bst_insert_prefix allocates for a trie without entries. */
    method FreshRoot()
      requires Valid() && entries == 0
      modifies this`root, this`at, this`repr
      ensures Valid() && Tidy() && root != null && fresh(root)
      ensures at == map[[] := root] && repr == {root} && m == map[]
    {
      root := new Node<V>.Root(this);
      at, repr := map[[] := root], {root};
      assert NodeOk([]);
    }

    /** The first half of bst_insert_prefix: make sure the prefix has a node. All nodes stay, unless the
        trie has no entries: then it gets a new root, and the nodes it still had are dropped unfreed. */
    method EnsureNode(key: Path, bits: nat) returns (n: Node<V>)
      requires Valid() && bits <= |key|
      modifies this`root, this`at, this`repr, repr`left, repr`right
      ensures Valid() && fresh(repr - old(repr))
      ensures if old(entries) > 0 then StillIn(old(at), at) else fresh(repr)
      ensures Has(n) && n.prefix == key[..bits]
      ensures old(Tidy()) ==> TidyBut(at.Keys, m.Keys, n.prefix)
    {
      if entries == 0 {
        FreshRoot();
      }
      var found, _ := Walk(key, bits, None);
      n := found;
      if n.prefixBits < bits {
        n := NewChain(n, key[..bits], bits);
      }
    }

    /** The store of bst_node_init and the count of bst_insert_prefix. */
    method Activate(n: Node<V>, value: V)
      requires Valid() && Has(n) && n.priv.None?
      modifies this`entries, this`m, n`priv
      ensures Valid() && m == old(m)[n.prefix := value]
      ensures old(TidyBut(at.Keys, m.Keys, n.prefix)) ==> Tidy()
    {
      Known(n.prefix);
      n.priv := Some(value);
      entries := entries + 1;
      m := m[n.prefix := value];
      forall q {:trigger NodeOk(q)} | q in at ensures NodeOk(q) {
        assert old(NodeOk(q));
      }
      forall p {:trigger DeadLeaf(at.Keys, m.Keys, p)} | p != [] && old(TidyBut(at.Keys, m.Keys, n.prefix))
        ensures !DeadLeaf(at.Keys, m.Keys, p)
      {
        assert p != n.prefix ==> old(!DeadLeaf(at.Keys, m.Keys, p));
      }
    }

    /** bst_insert_prefix; a prefix that is already active is refused with NULL. */
    method Insert(key: Path, bits: nat, value: V) returns (r: Node?<V>)
      requires Valid() && bits <= |key|
      modifies this`root, this`entries, this`at, this`m, this`repr, repr`left, repr`right, repr`priv
      ensures Valid() && fresh(repr - old(repr))
      ensures if old(entries) > 0 then StillIn(old(at), at) else fresh(repr)
      ensures r == null <==> key[..bits] in old(m)
      ensures r != null ==> Has(r) && r.prefix == key[..bits]
      ensures m == Apply(old(m), Add(key[..bits], value))
      ensures m == if r == null then old(m) else old(m)[key[..bits] := value]
      ensures old(Tidy()) ==> Tidy()
    {
      var n := EnsureNode(key, bits);
      Known(n.prefix);
      if n.priv.Some? {
        if old(Tidy()) {
          LiveIsTidy(at.Keys, m.Keys, n.prefix);
        }
        return null;
      }
      Activate(n, value);
      return n;
    }

    /** bst_node_orphan: run the destroy callback of an active node and make it inactive. */
    method Orphan(n: Node<V>)
      requires !n.gone && (n.priv.Some? ==> entries > 0)
      modifies this`entries, this`destroyed, this`m, n`priv
      ensures n.priv == None && m == old(m) - {n.prefix}
      ensures entries == old(entries) - if old(n.priv).Some? then 1 else 0
      ensures destroyed == old(destroyed) + if old(n.priv).Some? then [n.prefix] else []
    {
      if n.priv.Some? {
        entries := entries - 1;
        destroyed := destroyed + [n.prefix];
        n.priv := None;
      }
      m := m - {n.prefix};
    }

    /** bst_node_free: make the parent forget the node, or the tree forget its root. */
    method Free(n: Node<V>)
      requires !n.gone && !n.parent.gone
      modifies this`root, this`freed, n.parent`left, n.parent`right, n`gone
      ensures freed == old(freed) + [n.prefix] && n.gone
      ensures n.parent == n ==> root == null && n.left == old(n.left) && n.right == old(n.right)
      ensures n.parent != n ==> root == old(root)
      ensures n.parent != n && old(n.parent.right) == n ==>
        n.parent.right == null && n.parent.left == old(n.parent.left)
      ensures n.parent != n && old(n.parent.right) != n ==>
        n.parent.left == null && n.parent.right == old(n.parent.right)
    {
      if n.parent != n {
        if n.parent.right == n {
          n.parent.right := null;
        } else {
          n.parent.left := null;
        }
      } else {
        root := null;
      }
      freed := freed + [n.prefix];
      n.gone := true;
    }

    /** Orphaning a node of a well-formed trie deletes its entry and nothing else. */
    method Deactivate(n: Node<V>)
      requires Valid() && Has(n)
      modifies this`entries, this`m, this`destroyed, n`priv
      ensures Valid() && n.priv == None
      ensures m == old(m) - {n.prefix}
      ensures destroyed == old(destroyed) + if n.prefix in old(m) then [n.prefix] else []
    {
      Known(n.prefix);
      assert n.priv.Some? <==> n.prefix in m;
      Orphan(n);
      CountDrop(old(m), m, n.prefix, at.Keys);
      forall q {:trigger NodeOk(q)} | q in at ensures NodeOk(q) {
        assert old(NodeOk(q));
        if q != n.prefix {
          assert at[q] != n;
          FitsDrop(at, old(m), m, q, at[q].left, at[q].right, at[q].priv, n.prefix);
        } else {
          FitsDrop(at, old(m), m, q, n.left, n.right, old(n.priv), n.prefix);
        }
      }
    }

    /** Freeing a childless inactive node keeps a trie well formed. */
    method Detach(n: Node<V>)
      requires Valid() && Has(n)
      requires n.left == null && n.right == null && n.priv.None?
      modifies this`root, this`at, this`freed, n.parent`left, n.parent`right, n`gone
      ensures Valid() && at == old(at) - {n.prefix}
      ensures freed == old(freed) + [n.prefix] && n.gone
      ensures old(TidyBut(at.Keys, m.Keys, n.prefix)) ==> TidyBut(at.Keys, m.Keys, n.parent.prefix)
    {
      ghost var path, up := n.prefix, n.parent.prefix;
      ghost var b := path != [] && path[|path| - 1];
      LinkFromParent(n);
      Known(path);
      LeafHasNoKids(path);
      if path == [] {
        forall q | q in at ensures q == [] {
          if q != [] {
            assert Parent(q[..1]) == [];
            Ancestors(q, q[..1]);
          }
        }
      }
      if TidyBut(at.Keys, m.Keys, path) {
        PruneTidy(at.Keys, m.Keys, path);
      }
      Known(up);
      Free(n);
      at := at - {path};
      assert at.Keys == old(at.Keys) - {path};
      forall q {:trigger NodeOk(q)} | q in at ensures NodeOk(q) {
        assert old(NodeOk(q));
        FitsLess(old(at), m, q, old(at[q].left), old(at[q].right), old(at[q].priv), up, b);
      }
    }

    /** Orphan and free a childless node. */
    method DropLeaf(n: Node<V>)
      requires Valid() && Has(n) && n.left == null && n.right == null
      modifies this`entries, this`m, this`at, this`destroyed, this`freed, this`root
      modifies n`priv, n`gone, n.parent`left, n.parent`right
      ensures Valid() && at == old(at) - {n.prefix} && m == old(m) - {n.prefix}
      ensures freed == old(freed) + [n.prefix]
      ensures destroyed == old(destroyed) + if n.prefix in old(m) then [n.prefix] else []
    {
      Deactivate(n);
      Detach(n);
    }

    /** Free a childless inactive node and go up. */
    method Prune(n: Node<V>) returns (up: Node<V>)
      requires Valid() && Has(n) && n.left == null && n.right == null && n.priv.None?
      modifies this`root, this`at, this`freed, n.parent`left, n.parent`right, n`gone
      ensures Valid() && at == old(at) - {n.prefix} && freed == old(freed) + [n.prefix]
      ensures up == n.parent && (up == n <==> n.prefix == []) && (up.gone <==> up == n)
      ensures n.prefix != [] ==> Has(up) && up.prefix == Parent(n.prefix) && up.prefixBits < n.prefixBits
      ensures n.prefix != [] ==> (up.parent == up <==> up.prefix == [])
      ensures old(TidyBut(at.Keys, m.Keys, n.prefix)) ==> TidyBut(at.Keys, m.Keys, up.prefix)
    {
      StepUp(n);
      StepUp(n.parent);
      LinkFromParent(n);
      up := n.parent;
      Detach(n);
      if n.prefix != [] {
        Known(up.prefix);
      }
    }

    /** The same within the branch of `p`. */
    method PruneOn(n: Node<V>, ghost p: Path, ghost k: int, ghost nodes: map<Path, Node<V>>, ghost was: seq<Path>)
      returns (up: Node<V>)
      requires Valid() && Has(n) && n.left == null && n.right == null && n.priv.None?
      requires 0 < k < |p| && n.prefix == p[..k] && at == nodes - Cut(p, k) && freed == was + Branch(p, k)
      modifies this`root, this`at, this`freed, n.parent`left, n.parent`right, n`gone
      ensures Valid() && at == nodes - Cut(p, k - 1) && freed == was + Branch(p, k - 1)
      ensures up == n.parent && Has(up) && up.prefix == p[..k - 1] && up.prefixBits < n.prefixBits && !up.gone
      ensures up.parent == up <==> up.prefix == []
      ensures old(TidyBut(at.Keys, m.Keys, n.prefix)) ==> TidyBut(at.Keys, m.Keys, up.prefix)
    {
      BranchMore(p, k, nodes, was);
      up := Prune(n);
    }

    /** The loop of bst_node_release, which goes up from the parent of the node at `p`. */
    method Climb(n0: Node<V>, ghost p: Path, ghost nodes: map<Path, Node<V>>, ghost was: seq<Path>)
      returns (ghost k: int)
      requires Valid() && Has(n0) && |p| > 1 && n0.prefix == p[..|p| - 1] && n0.parent != n0
      requires at == nodes - Cut(p, |p| - 1) && freed == was + Branch(p, |p| - 1)
      modifies this`root, this`at, this`freed, repr`left, repr`right, repr`gone
      ensures Valid() && Pruned(nodes, at, m.Keys, p, k) && freed == was + Branch(p, k)
      ensures old(TidyBut(at.Keys, m.Keys, n0.prefix)) ==> Tidy()
    {
      var n := n0;
      k := |p| - 1;
      while n.priv.None? && n.left == null && n.right == null && n != n.parent
        invariant Valid() && Has(n) && 0 <= k < |p| && n.prefix == p[..k] && (n == n.parent <==> n.prefix == [])
        invariant at == nodes - Cut(p, k) && freed == was + Branch(p, k)
        invariant old(TidyBut(at.Keys, m.Keys, n0.prefix)) ==> TidyBut(at.Keys, m.Keys, n.prefix)
        decreases n.prefixBits
      {
        StepUp(n);
        n := PruneOn(n, p, k, nodes, was);
        k := k - 1;
      }
      Known(n.prefix);
      if TidyBut(at.Keys, m.Keys, n.prefix) && n != n.parent {
        LiveIsTidy(at.Keys, m.Keys, n.prefix);
      }
    }

    /** The upward half of bst_node_release: free a childless inactive node, then every
        ancestor that is left inactive and childless, stopping short of the root. The loop
        looks at a node that is freed already exactly when it starts from the root, which is
        its own parent; `stale` says whether it did, and `k` how many bits the first node kept has. */
    method PruneUp(n0: Node<V>) returns (ghost stale: bool, ghost k: int)
      requires Valid() && Has(n0)
      requires n0.left == null && n0.right == null && n0.priv.None?
      modifies this`root, this`at, this`freed, repr`left, repr`right, repr`gone
      ensures Valid() && Pruned(old(at), at, m.Keys, n0.prefix, k) && PrunedBelow(old(at), at, n0.prefix)
      ensures freed == old(freed) + Branch(n0.prefix, k)
      ensures old(TidyBut(at.Keys, m.Keys, n0.prefix)) ==> Tidy()
      ensures stale <==> n0.parent == n0
    {
      ghost var p := n0.prefix;
      StepUp(n0);
      BranchOne(p, at, freed);
      var n := Prune(n0);
      stale, k := n.gone, |p| - 1;
      if n != n.parent {
        k := Climb(n, p, old(at), old(freed));
      }
      PrunedOnly(old(at), at, m.Keys, p, k);
    }

    /** bst_node_release once the node is inactive: one with children stays. */
    method PruneFrom(n: Node<V>) returns (ghost stale: bool, ghost k: int)
      requires Valid() && Has(n) && n.priv.None?
      modifies this`root, this`at, this`freed, repr`left, repr`right, repr`gone
      ensures Valid() && PrunedBelow(old(at), at, n.prefix)
      ensures if old(n.left != null || n.right != null) then at == old(at) && freed == old(freed)
              else Pruned(old(at), at, m.Keys, n.prefix, k) && freed == old(freed) + Branch(n.prefix, k)
      ensures old(TidyBut(at.Keys, m.Keys, n.prefix)) ==> Tidy()
      ensures stale <==> old(n.parent == n && n.left == null && n.right == null)
    {
      if n.left != null || n.right != null {
        Known(n.prefix);
        if TidyBut(at.Keys, m.Keys, n.prefix) {
          LiveIsTidy(at.Keys, m.Keys, n.prefix);
        }
        return false, |n.prefix|;
      }
      stale, k := PruneUp(n);
    }

    /** bst_node_release: delete one entry, and prune exactly the branch that only led to it, down to the node of
        `k` bits. It looks at a freed node exactly when the node is the root and has no children. */
    method Release(n: Node<V>) returns (ghost stale: bool, ghost k: int)
      requires Valid() && Has(n)
      modifies this`root, this`entries, this`at, this`m, this`destroyed, this`freed, repr
      ensures Valid() && m == old(m) - {n.prefix}
      ensures PrunedBelow(old(at), at, n.prefix)
      ensures if old(n.left != null || n.right != null) then at == old(at) && freed == old(freed)
              else Pruned(old(at), at, m.Keys, n.prefix, k) && freed == old(freed) + Branch(n.prefix, k)
      ensures old(Tidy()) ==> Tidy()
      ensures destroyed == old(destroyed) + if n.prefix in old(m) then [n.prefix] else []
      ensures stale <==> old(n == root && n.left == null && n.right == null)
    {
      RootIsOwnParent(n);
      Vacate(n);
      stale, k := PruneFrom(n);
    }

    lemma RootIsOwnParent(n: Node<V>)
      requires Valid() && Has(n)
      ensures n == root <==> n.parent == n
    {
      Known(n.prefix);
      Ancestors(n.prefix, []);
      Known([]);
      if n.prefix != [] {
        Known(Parent(n.prefix));
      }
    }

    /** Deactivate a node; only it can be a dead leaf that was not one before. */
    method Vacate(n: Node<V>)
      requires Valid() && Has(n)
      modifies this`entries, this`m, this`destroyed, n`priv
      ensures Valid() && n.priv == None && m == old(m) - {n.prefix}
      ensures destroyed == old(destroyed) + if n.prefix in old(m) then [n.prefix] else []
      ensures old(Tidy()) ==> TidyBut(at.Keys, m.Keys, n.prefix)
      ensures old(Tidy()) ==> (Tidy() <==> n.prefix == [] || !DeadLeaf(at.Keys, m.Keys, n.prefix))
      ensures DeadLeaf(at.Keys, m.Keys, n.prefix) <==> n.left == null && n.right == null
    {
      Deactivate(n);
      Known(n.prefix);
      if old(Tidy()) {
        DropTidy(at.Keys, old(m.Keys), n.prefix);
        assert m.Keys == old(m.Keys) - {n.prefix};
        if !DeadLeaf(at.Keys, m.Keys, n.prefix) {
          LiveIsTidy(at.Keys, m.Keys, n.prefix);
        }
      }
    }

    /** bst_remove_prefix: make the entry inactive, but leave its node in place. */
    method RemovePrefix(key: Path, bits: nat) returns (removed: bool)
      requires Valid() && bits <= |key|
      modifies this`entries, this`m, this`destroyed, repr`priv
      ensures Valid() && m == Apply(old(m), Drop(key[..bits]))
      ensures removed <==> key[..bits] in old(m)
      ensures destroyed == old(destroyed) + if removed then [key[..bits]] else []
      ensures old(Tidy()) ==> (Tidy() <==> !(bits > 0 && removed && DeadLeaf(at.Keys, m.Keys, key[..bits])))
    {
      var goal := key[..bits];
      var n := FindLongestPrefixMatch(key, bits, None);
      if goal in m {
        assert Candidate(m, goal, None, goal);
      }
      if n != null {
        Known(n.prefix);
      }
      if n != null && n.prefixBits == bits {
        assert Candidate(m, goal, None, n.prefix) && n.prefix == goal;
        Vacate(n);
        return true;
      }
      return false;
    }

    // ---------- Destroying a subtree ----------

    ghost function LiveKid(live: set<Path>, p: Path, b: bool): Node?<V>
      reads this
    {
      if p + [b] in live then Slot(p + [b]) else null
    }

    /** While the subtree at `r` is being torn down, `live` are the nodes still linked. A live
        node has exactly its live children, a lone left child possibly moved to the right. */
    ghost predicate LiveOk(r: Path, live: set<Path>, p: Path)
      requires p in at
      reads this, at[p]
    {
      var n, l, g := at[p], LiveKid(live, p, false), LiveKid(live, p, true);
      && r <= p
      && (p != r ==> p != [] && Parent(p) in live && r <= Parent(p))
      && n.priv == Get(m, p) && !n.gone
      && ((n.left == l && n.right == g) || (g == null && n.left == null && n.right == l))
    }

    ghost predicate Wrecking(r: Path, live: set<Path>)
      reads this, repr
    {
      && r in live && live <= at.Keys && entries == |m|
      && (forall p :: p in at ==> at[p] in repr)
      && (forall p {:trigger Labelled(at, p)} :: p in at ==> Labelled(at, p))
      && (forall p {:trigger LiveOk(r, live, p)} :: p in live ==> LiveOk(r, live, p))
      && (forall p {:trigger NodeOk(p)} :: p in at && !(r <= p) ==> NodeOk(p))
    }

    ghost function Lefts(live: set<Path>): set<Path>
      requires live <= at.Keys && forall p :: p in live ==> at[p] in repr
      reads this, repr
    {
      set p | p in live && at[p].left != null
    }

    lemma StartWreck(r: Path)
      requires Valid() && r in at
      ensures Wrecking(r, Under(at.Keys, r))
    {
      var live := Under(at.Keys, r);
      forall p {:trigger Labelled(at, p)} | p in at ensures Labelled(at, p) {
        Known(p);
      }
      forall p {:trigger LiveOk(r, live, p)} | p in live ensures LiveOk(r, live, p) {
        Known(p);
        assert forall x {:trigger p + [x]} :: r <= p + [x];
      }
    }

    /** The parent's links to a live node and to its live sibling, if any. */
    lemma LiveLinks(r: Path, live: set<Path>, c: Path)
      requires Wrecking(r, live) && c in live && c != r
      ensures c != [] && Parent(c) in live && Labelled(at, c) && Labelled(at, Parent(c))
      ensures var up, b, n := at[Parent(c)], c[|c| - 1], at[c];
              var sib := LiveKid(live, Parent(c), !b);
              && (up.right == n ==> (b || sib == null) && up.left == sib)
              && (up.right != n ==> up.left == n && up.right == sib && !b)
    {
      assert Labelled(at, c) && LiveOk(r, live, c);
      var up, b := Parent(c), c[|c| - 1];
      var sib := up + [!b];
      assert c == if b then up + [true] else up + [false];
      assert sib == if b then up + [false] else up + [true];
      assert Labelled(at, up) && LiveOk(r, live, up);
      assert sib[|up|] != c[|up|];
      if sib in live {
        assert Labelled(at, sib);
      }
    }

    method WreckOrphan(n: Node<V>, ghost r: Path, ghost live: set<Path>)
      requires Wrecking(r, live) && Has(n) && n.prefix in live
      modifies this`entries, this`m, this`destroyed, n`priv
      ensures Wrecking(r, live) && n.priv.None?
      ensures m == old(m) - {n.prefix}
      ensures destroyed == old(destroyed) + if n.prefix in old(m) then [n.prefix] else []
    {
      assert LiveOk(r, live, n.prefix);
      Orphan(n);
      forall p {:trigger LiveOk(r, live, p)} | p in live ensures LiveOk(r, live, p) {
        assert old(LiveOk(r, live, p)) && Labelled(at, p);
      }
      forall p {:trigger NodeOk(p)} | p in at && !(r <= p) ensures NodeOk(p) {
        assert old(NodeOk(p));
      }
    }

    /** Without the live leaf `c`, nodes other than it and its parent are live as before. */
    lemma StillLive(r: Path, live: set<Path>, c: Path, p: Path)
      requires p in at && p in live && c != [] && p != c && p != Parent(c) && LiveOk(r, live, p)
      requires c + [false] !in live && c + [true] !in live
      ensures LiveOk(r, live - {c}, p)
    {
      SnocOnly(p, Parent(c), c[|c| - 1]);
      assert c == Parent(c) + [c[|c| - 1]];
      assert p != [] ==> p == if p[|p| - 1] then Parent(p) + [true] else Parent(p) + [false];
    }

    method WreckFree(n: Node<V>, ghost r: Path, ghost live: set<Path>)
      requires Wrecking(r, live) && Has(n) && n.prefix in live && n.prefix != r
      requires n.left == null && n.right == null
      modifies this`freed, this`root, n.parent`left, n.parent`right, n`gone
      ensures Wrecking(r, live - {n.prefix}) && root == old(root)
      ensures Has(n.parent) && n.parent.prefix in live - {n.prefix} && n.parent != n
      ensures freed == old(freed) + [n.prefix]
    {
      ghost var c := n.prefix;
      LiveLinks(r, live, c);
      assert LiveOk(r, live, c);
      ghost var up, b := Parent(c), c[|c| - 1];
      assert c == up + [b] == if b then up + [true] else up + [false];
      assert up + [!b] == if b then up + [false] else up + [true];
      assert LiveOk(r, live, up);
      Free(n);
      ghost var live' := live - {c};
      assert LiveOk(r, live', up);
      forall p {:trigger LiveOk(r, live', p)} | p in live' ensures LiveOk(r, live', p) {
        if p != up {
          assert old(LiveOk(r, live, p)) && Labelled(at, p);
          StillLive(r, live, c, p);
        }
      }
      forall p {:trigger NodeOk(p)} | p in at && !(r <= p) ensures NodeOk(p) {
        assert old(NodeOk(p));
      }
    }

    method WreckRotate(n: Node<V>, ghost r: Path, ghost live: set<Path>)
      requires Wrecking(r, live) && Has(n) && n.prefix in live
      requires n.right == null && n.left != null
      modifies n`left, n`right
      ensures Wrecking(r, live) && n.right != null
      ensures Lefts(live) == old(Lefts(live)) - {n.prefix} && n.prefix in old(Lefts(live))
    {
      assert LiveOk(r, live, n.prefix);
      n.right := n.left;
      n.left := null;
      forall p {:trigger LiveOk(r, live, p)} | p in live ensures LiveOk(r, live, p) {
        assert old(LiveOk(r, live, p)) && Labelled(at, p);
      }
      forall p {:trigger NodeOk(p)} | p in at && !(r <= p) ensures NodeOk(p) {
        assert old(NodeOk(p));
      }
      forall p | p in live && p != n.prefix ensures at[p].left == old(at[p].left) {
        assert Labelled(at, p);
      }
    }

    /** Once only the childless top is left, forgetting the freed nodes gives a trie again. */
    ghost method ForgetFreed(r: Path)
      requires Wrecking(r, {r}) && root == Slot([]) && root != null
      requires at[r].tree == this && at[r].prefixBits == |r|
      requires m.Keys <= at.Keys - (Under(at.Keys, r) - {r})
      modifies this`at
      ensures Valid() && at == old(at) - (Under(old(at.Keys), r) - {r})
      ensures r in at && at[r] == old(at)[r] && at[r].left == null && at[r].right == null
    {
      assert Labelled(at, r) && LiveOk(r, {r}, r);
      at := at - (Under(at.Keys, r) - {r});
      forall p {:trigger NodeOk(p)} | p in at ensures NodeOk(p) {
        if p != r {
          assert old(NodeOk(p));
          assert forall x {:trigger p + [x]} :: r <= p + [x] ==> p + [x] == r;
        }
      }
    }

    lemma LastIsTop(r: Path, live: set<Path>)
      requires Wrecking(r, live) && at[r].left == null && at[r].right == null
      ensures live == {r}
    {
      assert LiveOk(r, live, r);
      assert live <= at.Keys;
      forall q {:trigger Parent(q)} | q in live && q != r ensures q != [] && Parent(q) in live && r <= Parent(q) {
        assert LiveOk(r, live, q);
      }
      assert Closed(live, r);
      forall p | p in live ensures p == r {
        assert LiveOk(r, live, p);
        OnlyTop(live, r, p);
      }
    }

    /** Going to the right stays among the live nodes, further down. */
    lemma NextDown(r: Path, live: set<Path>, n: Node<V>)
      requires Wrecking(r, live) && Has(n) && n.prefix in live && n.right != null
      ensures Has(n.right) && n.right.prefix in live
      ensures Under(live, n.right.prefix) < Under(live, n.prefix)
    {
      var c := n.prefix;
      assert LiveOk(r, live, c);
      var b := c + [true] in live;
      assert c + [b] == if b then c + [true] else c + [false];
      assert n.right == LiveKid(live, c, b);
      assert Labelled(at, c + [b]);
      assert c in Under(live, c) && c !in Under(live, c + [b]);
    }

    /** The turn of the loop at a childless node below the top. */
    method WreckLeaf(n: Node<V>, ghost r: Path, ghost live: set<Path>)
      requires Wrecking(r, live) && Has(n) && n.prefix in live && n.prefix != r
      requires n.left == null && n.right == null
      modifies this`entries, this`m, this`destroyed, this`freed, this`root
      modifies n`priv, n`gone, n.parent`left, n.parent`right
      ensures Wrecking(r, live - {n.prefix}) && root == old(root)
      ensures Has(n.parent) && n.parent.prefix in live - {n.prefix}
      ensures m == old(m) - {n.prefix}
      ensures freed == old(freed) + [n.prefix]
      ensures destroyed == old(destroyed) + if n.prefix in old(m) then [n.prefix] else []
    {
      WreckOrphan(n, r, live);
      WreckFree(n, r, live);
    }

    /** How far the teardown of `sub` got, and what the callbacks and frees so far were. */
    ghost predicate Tearing(r: Path, sub: set<Path>, live: set<Path>, ps: seq<Path>,
                            m0: map<Path, V>, f0: seq<Path>, d0: seq<Path>)
      reads this, repr
    {
      && Wrecking(r, live) && Torn(ps, sub, live, m0, m)
      && freed == f0 + ps && destroyed == d0 + Active(ps, m0)
    }

    /** One turn of the loop of __bst_destroy_subtree, short of the last. */
    method WreckStep(n: Node<V>, ghost r: Path, ghost sub: set<Path>, ghost live: set<Path>, ghost ps: seq<Path>,
                     ghost m0: map<Path, V>, ghost f0: seq<Path>, ghost d0: seq<Path>)
      returns (n': Node<V>, ghost live': set<Path>, ghost ps': seq<Path>)
      requires Tearing(r, sub, live, ps, m0, f0, d0) && Has(n) && n.prefix in live
      requires !(n.prefix == r && n.left == null && n.right == null)
      modifies this`root, this`entries, this`m, this`destroyed, this`freed, repr
      ensures Tearing(r, sub, live', ps', m0, f0, d0) && Has(n') && n'.prefix in live'
      ensures root == old(root)
      ensures live' < live || (live' == live && Lefts(live) < old(Lefts(live))) ||
              (live' == live && Lefts(live) == old(Lefts(live)) && Under(live, n'.prefix) < Under(live, n.prefix))
    {
      n', live', ps' := n, live, ps;
      ghost var c := n.prefix;
      if n.right == null {
        if n.left == null {
          LiveLinks(r, live, c);
          TornMore(ps, sub, live, m0, m, c);
          ConcatAssoc(f0, ps, [c]);
          ConcatAssoc(d0, Active(ps, m0), if c in m then [c] else []);
          n' := n.parent;
          WreckLeaf(n, r, live);
          ps', live' := ps + [c], live - {c};
        } else {
          WreckRotate(n, r, live);
        }
      } else {
        NextDown(r, live, n);
        n' := n.right;
      }
    }

    /** The turns of the loop until only the childless top is left. */
    method TearDown(top: Node<V>, ghost r: Path) returns (ghost ps: seq<Path>)
      requires Valid() && Has(top) && top.prefix == r
      modifies this`root, this`entries, this`m, this`destroyed, this`freed, repr
      ensures Tearing(r, Under(at.Keys, r), {r}, ps, old(m), old(freed), old(destroyed))
      ensures root == old(root)
    {
      ghost var live, sub := Under(at.Keys, r), Under(at.Keys, r);
      ps := [];
      StartWreck(r);
      var n: Node<V> := top;
      while !(n == top && n.left == null && n.right == null)
        invariant root == old(root)
        invariant Tearing(r, sub, live, ps, old(m), old(freed), old(destroyed)) && Has(n) && n.prefix in live
        decreases live, Lefts(live), Under(live, n.prefix)
        modifies this`root, this`entries, this`m, this`destroyed, this`freed, repr
      {
        n, live, ps := WreckStep(n, r, sub, live, ps, old(m), old(freed), old(destroyed));
      }
      LastIsTop(r, live);
    }

    /** The last turn of the loop: the top itself, once it is childless. */
    method WreckTop(n: Node<V>, ghost r: Path)
      requires Wrecking(r, {r}) && root == Slot([]) && root != null
      requires Has(n) && n.prefix == r && n.tree == this && n.prefixBits == |r|
      requires m.Keys <= at.Keys - (Under(at.Keys, r) - {r})
      modifies this`entries, this`m, this`at, this`destroyed, this`freed, this`root
      modifies n`priv, n`gone, n.parent`left, n.parent`right
      ensures Valid() && at == old(at) - Under(old(at.Keys), r) && m == old(m) - {r}
      ensures freed == old(freed) + [r]
      ensures destroyed == old(destroyed) + if r in old(m) then [r] else []
    {
      MinusTwice(at, Under(at.Keys, r), r);
      ForgetFreed(r);
      DropLeaf(n);
    }

    /** __bst_destroy_subtree: without recursion, by moving left children to the right. */
    method DestroySubtree(top: Node<V>) returns (ghost ps: seq<Path>)
      requires Valid() && Has(top)
      modifies this, repr
      ensures Valid()
      ensures at == old(at) - Under(old(at.Keys), top.prefix)
      ensures m == old(m) - Under(old(at.Keys), top.prefix)
      ensures ListsOnce(ps, Under(old(at.Keys), top.prefix))
      ensures freed == old(freed) + ps
      ensures destroyed == old(destroyed) + Active(ps, old(m))
    {
      ghost var r := top.prefix;
      Known(r);
      ps := TearDown(top, r);
      TornAll(ps, Under(at.Keys, r), r, old(m), m, old(freed), old(destroyed));
      WreckTop(top, r);
      ps := ps + [r];
    }

    /** bst_destroy frees every node once, unless the trie has no entries: then it keeps its nodes. */
    method Destroy() returns (ghost ps: seq<Path>)
      requires Valid()
      modifies this, repr
      ensures Valid() && m == map[]
      ensures old(entries) > 0 ==> root == null
      ensures destroyed == old(destroyed) + ps && ListsOnce(ps, old(m.Keys))
      ensures |old(freed)| <= |freed| && freed[..|old(freed)|] == old(freed)
      ensures ListsOnce(freed[|old(freed)|..], if old(entries) > 0 then old(at.Keys) else {})
      ensures at == if old(entries) > 0 then map[] else old(at)
    {
      ps := [];
      if entries > 0 && root != null {
        Known([]);
        assert Under(at.Keys, []) == at.Keys;
        ps := DestroySubtree(root);
        ActiveListsEntries(ps, old(m), old(at.Keys));
        ps := Active(ps, old(m));
        root := null;
        entries := 0;
      }
    }
  }
}
