/** Longest-prefix match over a finite map from bit strings to values: the
    simple thing that the pointer trie of `src/stack/bst.c` must agree with. */
module PrefixMap {
  import opened Wrappers

  /** A prefix, most significant bit first. */
  type Path = seq<bool>

  /** A missing match callback accepts every entry. */
  predicate Accepts<V>(want: Option<V -> bool>, v: V) {
    want.Some? ==> want.value(v)
  }

  /** `p` is an entry that covers the whole key and that the callback accepts. */
  predicate Candidate<V>(m: map<Path, V>, key: Path, want: Option<V -> bool>, p: Path) {
    p in m && p <= key && Accepts(want, m[p])
  }

  /** `r` is the answer to a longest-prefix query. */
  ghost predicate IsLongest<V>(m: map<Path, V>, key: Path, want: Option<V -> bool>, r: Option<Path>) {
    match r
    case Some(p) =>
      && Candidate(m, key, want, p)
      && forall q {:trigger Candidate(m, key, want, q)} :: Candidate(m, key, want, q) ==> |q| <= |p|
    case None =>
      forall q :: !Candidate(m, key, want, q)
  }

  /** A query has at most one answer. */
  lemma LongestIsUnique<V>(m: map<Path, V>, key: Path, want: Option<V -> bool>, r: Option<Path>, s: Option<Path>)
    requires IsLongest(m, key, want, r) && IsLongest(m, key, want, s)
    ensures r == s
  {
    if r.Some? && s.Some? {
      assert Candidate(m, key, want, r.value) && Candidate(m, key, want, s.value);
      assert r.value == key[..|r.value|] && s.value == key[..|s.value|];
    }
  }

  /** The longest candidate among the prefixes of fewer than `k` bits. */
  ghost function Best<V>(m: map<Path, V>, key: Path, want: Option<V -> bool>, k: nat): (r: Option<Path>)
    requires k <= |key| + 1
  {
    if k == 0 then None
    else if Candidate(m, key, want, key[..k - 1]) then Some(key[..k - 1])
    else Best(m, key, want, k - 1)
  }

  lemma {:induction false} BestIsLongest<V>(m: map<Path, V>, key: Path, want: Option<V -> bool>, k: nat)
    requires k <= |key| + 1
    requires forall q {:trigger Candidate(m, key, want, q)} :: Candidate(m, key, want, q) ==> |q| < k
    ensures IsLongest(m, key, want, Best(m, key, want, k))
  {
    if k > 0 {
      forall q {:trigger Candidate(m, key, want, q)} | Candidate(m, key, want, q) && |q| == k - 1
        ensures q == key[..k - 1]
      {
      }
      if !Candidate(m, key, want, key[..k - 1]) {
        BestIsLongest(m, key, want, k - 1);
      }
    }
  }

  /** Deleting an entry changes the answer of exactly those queries that it answered. */
  lemma DeleteKeepsOtherAnswers<V>(m: map<Path, V>, d: Path, key: Path, want: Option<V -> bool>, r: Option<Path>)
    requires IsLongest(m, key, want, r)
    ensures IsLongest(m - {d}, key, want, r) <==> (r.None? || r.value != d)
  {
    var m' := m - {d};
    forall q ensures Candidate(m', key, want, q) <==> Candidate(m, key, want, q) && q != d {
    }
    if r.Some? && r.value != d {
      assert Candidate(m', key, want, r.value);
    }
  }

  /** Adding an entry takes over exactly the queries it covers, accepts and beats. */
  lemma InsertTakesOver<V>(m: map<Path, V>, p: Path, v: V, key: Path, want: Option<V -> bool>, r: Option<Path>)
    requires p !in m && IsLongest(m, key, want, r)
    ensures var wins := p <= key && Accepts(want, v) && (r.Some? ==> |r.value| < |p|);
            IsLongest(m[p := v], key, want, if wins then Some(p) else r)
  {
    var m' := m[p := v];
    forall q ensures Candidate(m', key, want, q) <==>
                     (Candidate(m, key, want, q) || (q == p && p <= key && Accepts(want, v))) {
    }
  }

  /** One update of the service table. */
  datatype Update<V> = Add(path: Path, value: V) | Drop(path: Path)

  /** Adding a prefix that is taken is refused; dropping a missing one does nothing. */
  function Apply<V>(m: map<Path, V>, u: Update<V>): map<Path, V> {
    match u
    case Add(p, v) => if p in m then m else m[p := v]
    case Drop(p) => m - {p}
  }

  /** What an update leaves under each prefix. */
  lemma ApplyIs<V>(m: map<Path, V>, u: Update<V>, q: Path)
    ensures var m' := Apply(m, u);
            if u.Drop? && q == u.path then q !in m'
            else if u.Add? && q == u.path && q !in m then q in m' && m'[q] == u.value
            else (q in m' <==> q in m) && (q in m ==> m'[q] == m[q])
  {
  }
}
