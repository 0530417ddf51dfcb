/** Whole histories of the trie of `src/stack/bst.c`: after any of them, a lookup answers as the
    plain map of the same history does. */
module TrieHistory {
  import opened Wrappers
  import opened PrefixMap
  import opened Trie
  import TrieWalk

  /** bst_insert_prefix, bst_remove_prefix, or bst_node_release of the node of a prefix. */
  datatype Op<V> = Insert(path: Path, value: V) | Remove(path: Path) | Release(path: Path)

  function Effect<V>(op: Op<V>): Update<V> {
    match op
    case Insert(p, v) => Add(p, v)
    case Remove(p) => Drop(p)
    case Release(p) => Drop(p)
  }

  /** The map after a history that starts empty. */
  function MapAfter<V>(ops: seq<Op<V>>): map<Path, V> {
    if ops == [] then map[] else Apply(MapAfter(ops[..|ops| - 1]), Effect(ops[|ops| - 1]))
  }

  /** The node of an entry, found by looking its prefix up. */
  method Lookup<V>(t: Trie<V>, p: Path) returns (n: Node?<V>)
    requires t.Valid()
    ensures n == null <==> p !in t.m
    ensures n != null ==> t.Has(n) && n.prefix == p
  {
    assert p[..|p|] == p;
    var any: Option<V -> bool> := None;
    assert p in t.m ==> Candidate(t.m, p, any, p);
    n := t.FindLongestPrefixMatch(p, |p|, any);
    if n != null {
      t.Known(n.prefix);
      assert Candidate(t.m, p, any, n.prefix);
      assert n.prefixBits == |p| ==> n.prefix == p;
      if n.prefixBits != |p| {
        n := null;
      }
    }
  }

  method ReleaseAt<V>(t: Trie<V>, p: Path)
    requires t.Valid()
    modifies t, t.repr
    ensures t.Valid() && t.repr == old(t.repr) && t.m == old(t.m) - {p} && StillIn(t.at, old(t.at))
    ensures old(t.Tidy()) ==> t.Tidy()
  {
    var n := Lookup(t, p);
    if n == null {
      assert t.m - {p} == t.m;
    } else {
      ghost var _, _ := t.Release(n);
    }
  }

  /** Entries that last keep their nodes. */
  ghost predicate SameNodes<V>(m: map<Path, V>, at: map<Path, Node<V>>, m': map<Path, V>, at': map<Path, Node<V>>) {
    forall q :: q in m && q in m' ==> q in at && q in at' && at'[q] == at[q]
  }

  method Perform<V>(t: Trie<V>, op: Op<V>)
    requires t.Valid()
    modifies t, t.repr
    ensures t.Valid() && fresh(t.repr - old(t.repr))
    ensures t.m == Apply(old(t.m), Effect(op)) && SameNodes(old(t.m), old(t.at), t.m, t.at)
    ensures old(t.Tidy()) && !op.Remove? ==> t.Tidy()
  {
    var p := op.path;
    assert p[..|p|] == p;
    match op
    case Insert(_, v) =>
      var _ := t.Insert(p, |p|, v);
    case Remove(_) =>
      var _ := t.RemovePrefix(p, |p|);
    case Release(_) =>
      ReleaseAt(t, p);
  }

  /** No removal among some operations. */
  predicate NoRemoval<V>(ops: seq<Op<V>>) {
    forall i :: 0 <= i < |ops| ==> !ops[i].Remove?
  }

  /** The trie stands for a history. */
  ghost predicate Stands<V>(t: Trie<V>, ops: seq<Op<V>>)
    reads t
  {
    t.m == MapAfter(ops) && (NoRemoval(ops) ==> t.Tidy())
  }

  /** One more operation. */
  method Extend<V>(t: Trie<V>, ghost ops: seq<Op<V>>, op: Op<V>)
    requires t.Valid() && Stands(t, ops)
    modifies t, t.repr
    ensures t.Valid() && fresh(t.repr - old(t.repr)) && Stands(t, ops + [op])
    ensures SameNodes(old(t.m), old(t.at), t.m, t.at)
  {
    HistoryOne(ops, op);
    Perform(t, op);
  }

  lemma HistoryOne<V>(ops: seq<Op<V>>, op: Op<V>)
    ensures MapAfter(ops + [op]) == Apply(MapAfter(ops), Effect(op))
    ensures NoRemoval(ops + [op]) ==> NoRemoval(ops) && !op.Remove?
  {
    var more := ops + [op];
    assert more[..|ops|] == ops;
    if NoRemoval(more) {
      forall i | 0 <= i < |ops| ensures !ops[i].Remove? {
        assert more[i] == ops[i];
      }
      assert more[|ops|] == op;
    }
  }

  method Replay<V>(ops: seq<Op<V>>) returns (t: Trie<V>)
    ensures t.Valid() && fresh(t) && fresh(t.repr)
    ensures t.m == MapAfter(ops) && t.entries == |MapAfter(ops)|
    ensures NoRemoval(ops) ==> t.Tidy()
    decreases |ops|
  {
    if ops == [] {
      t := new Trie();
    } else {
      var n := |ops| - 1;
      StartAndLast([], ops);
      t := Replay(ops[..n]);
      Extend(t, ops[..n], ops[n]);
    }
  }

  /** After any history, a lookup finds the entry with the most bits that covers the key and passes
      the callback, or nothing if there is none. */
  method Resolve<V>(ops: seq<Op<V>>, key: Path, bits: nat, want: Option<V -> bool>) returns (answer: Option<(Path, V)>)
    requires bits <= |key|
    ensures IsLongest(MapAfter(ops), key[..bits], want, if answer.Some? then Some(answer.value.0) else None)
    ensures answer.Some? ==> MapAfter(ops)[answer.value.0] == answer.value.1
  {
    var t := Replay(ops);
    var n := t.FindLongestPrefixMatch(key, bits, want);
    if n == null {
      return None;
    }
    t.Known(n.prefix);
    return Some((n.prefix, n.priv.value));
  }

  // ---------- Nodes that callers keep ----------

  /** No operation takes the entry of `p` out. */
  predicate Spares<V>(ops: seq<Op<V>>, p: Path) {
    forall i :: 0 <= i < |ops| ==> ops[i].Insert? || ops[i].path != p
  }

  /** Then the entry stays as it was. */
  lemma {:induction false} SparedStays<V>(ops: seq<Op<V>>, more: seq<Op<V>>, p: Path)
    requires p in MapAfter(ops) && Spares(more, p)
    ensures Get(MapAfter(ops + more), p) == Get(MapAfter(ops), p)
    decreases |more|
  {
    if more == [] {
      assert ops + more == ops;
    } else {
      var n := |more| - 1;
      SparedStays(ops, more[..n], p);
      StartAndLast(ops, more);
      HistoryOne(ops + more[..n], more[n]);
    }
  }

  /** A rule is added to a trie with any history. */
  method AddRule<V>(ops: seq<Op<V>>, p: Path, value: V) returns (t: Trie<V>, r: Node<V>)
    requires p !in MapAfter(ops)
    ensures t.Valid() && fresh(t) && fresh(t.repr) && Stands(t, ops + [Op.Insert(p, value)])
    ensures t.Has(r) && r.prefix == p && p in t.m
  {
    assert p[..|p|] == p;
    HistoryOne(ops, Op.Insert(p, value));
    t := Replay(ops);
    r := t.Insert(p, |p|, value);
  }

  /** The node that it got, kept by the caller, is still the one of its entry after any operations that do
      not take the rule out. */
  method KeepRule<V>(ops: seq<Op<V>>, p: Path, value: V, more: seq<Op<V>>) returns (t: Trie<V>, r: Node<V>)
    requires p !in MapAfter(ops) && Spares(more, p)
    ensures t.Valid() && fresh(t) && fresh(t.repr) && Stands(t, ops + [Op.Insert(p, value)] + more)
    ensures t.Has(r) && r.prefix == p && Get(t.m, p) == Some(value)
    decreases |more|
  {
    ghost var first := ops + [Op.Insert(p, value)];
    HistoryOne(ops, Op.Insert(p, value));
    SparedStays(first, more, p);
    if more == [] {
      t, r := AddRule(ops, p, value);
      assert first + more == first;
    } else {
      var n := |more| - 1;
      StartAndLast(first, more);
      t, r := KeepRule(ops, p, value, more[..n]);
      Extend(t, first + more[..n], more[n]);
    }
  }

  /** Releasing that node takes exactly the rule's entry out, whatever came between. */
  method KeepThenRelease<V>(ops: seq<Op<V>>, p: Path, value: V, more: seq<Op<V>>) returns (t: Trie<V>)
    requires p !in MapAfter(ops) && Spares(more, p)
    ensures t.Valid() && t.m == MapAfter(ops + [Op.Insert(p, value)] + more) - {p}
    ensures t.destroyed != [] && t.destroyed[|t.destroyed| - 1] == p
  {
    var r;
    t, r := KeepRule(ops, p, value, more);
    ghost var _, _ := t.Release(r);
  }

  // ---------- Short histories at which a promise fails ----------

  /** One prefix inserted and removed: there is no entry left, and the iterator yields a node all the same. */
  method RemoveThenIterate<V>(path: Path, value: V) returns (t: Trie<V>, out: seq<Node<V>>)
    ensures t.Valid() && t.m == map[] && |out| == 1 && t.Has(out[0]) && out[0].priv == None
  {
    assert path[..|path|] == path;
    t := new Trie();
    var n := t.Insert(path, |path|, value);
    t.Ancestors(path, []);
    var _ := t.RemovePrefix(path, |path|);
    ghost var ps := TrieWalk.PreOrder(t.at.Keys, [], true);
    TrieWalk.LastIsLeaf(t.at.Keys, [], true);
    TrieWalk.NoneActive(ps, t.m);
    out := TrieWalk.Collect(t);
    assert |TrieWalk.PathsOf(out)| == 1;
    t.Known(out[0].prefix);
  }

  /** Without dead leaves, a trie whose only entry is the empty prefix is its root alone. */
  lemma RootAlone<V>(t: Trie<V>)
    requires t.Valid() && t.Tidy() && t.m.Keys == {[]}
    ensures t.root != null && t.root.left == null && t.root.right == null
  {
    var nodes := t.at.Keys;
    assert [] in t.m;
    TrieWalk.LastIsLeaf(nodes, [], true);
    var ps := TrieWalk.PreOrder(nodes, [], true);
    var z := ps[|ps| - 1];
    assert z == [] || !DeadLeaf(nodes, t.m.Keys, z);
    t.Known([]);
  }

  /** The only rule, of zero bits, is inserted and released: the release looks at the root it has freed. */
  method ReleaseOnlyRule<V>(value: V) returns (t: Trie<V>, ghost stale: bool)
    ensures t.Valid() && t.m == map[] && stale
  {
    t := new Trie();
    var n := t.Insert([], 0, value);
    RootAlone(t);
    t.Known([]);
    ghost var k;
    stale, k := t.Release(n);
  }

  /** One prefix inserted, removed and inserted again: the first node is neither freed nor in the trie. */
  method InsertAgain<V>(path: Path, value: V) returns (t: Trie<V>, first: Node<V>)
    ensures t.Valid() && t.m == map[path := value] && !t.Has(first) && !first.gone && t.freed == []
  {
    assert path[..|path|] == path;
    t := new Trie();
    first := t.Insert(path, |path|, value);
    t.Known(path);
    var _ := t.RemovePrefix(path, |path|);
    var _ := t.Insert(path, |path|, value);
  }
}
