/** What several modules need: bytes and word sizes, a value that may be missing, and a few facts
    about sequences. */
module Wrappers {

  const TWO32: int := 0x1_0000_0000
  const NSEC_PER_SEC: int := 1_000_000_000

  type Byte = b: int | 0 <= b < 256

  datatype Option<+T> = None | Some(value: T)

  ghost predicate Distinct<T>(s: seq<T>) {
    forall i, j :: 0 <= i < j < |s| ==> s[i] != s[j]
  }

  lemma ConcatAssoc<T>(a: seq<T>, b: seq<T>, c: seq<T>)
    ensures a + b + c == a + (b + c)
  {
  }

  /** A sequence without its element `k`. */
  function DropAt<T>(q: seq<T>, k: nat): (r: seq<T>)
    requires k < |q|
    ensures |r| == |q| - 1
  {
    q[..k] + q[k + 1..]
  }

  /** A sequence is its start and its last element, also behind another one. */
  lemma StartAndLast<T>(a: seq<T>, s: seq<T>)
    requires s != []
    ensures s == s[..|s| - 1] + [s[|s| - 1]] && a + s == (a + s[..|s| - 1]) + [s[|s| - 1]]
  {
  }
}
