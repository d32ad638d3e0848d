/** Sequences without repetition. The pairwise condition is a predicate of its own, so that
    proofs name the pairs they use. */
module Distinctness {

  ghost predicate Differ<T>(q: seq<T>, i: nat, j: nat) {
    i < j < |q| ==> q[i] != q[j]
  }

  ghost predicate Distinct<T>(q: seq<T>) {
    forall i: nat, j: nat {:trigger Differ(q, i, j)} :: Differ(q, i, j)
  }

  lemma Apart<T>(q: seq<T>, i: nat, j: nat)
    requires Distinct(q) && i < |q| && j < |q|
    ensures q[i] == q[j] ==> i == j
  {
    assert Differ(q, i, j) && Differ(q, j, i);
  }

  lemma DistinctPush<T>(q: seq<T>, t: T)
    requires Distinct(q) && t !in q
    ensures Distinct(q + [t])
  {
    forall i: nat, j: nat ensures Differ(q + [t], i, j) { assert Differ(q, i, j); }
  }

  /** `q` without its element at `k`. */
  ghost function Without<T>(q: seq<T>, k: nat): (r: seq<T>)
    requires k < |q|
    ensures |r| == |q| - 1
  {
    seq(|q| - 1, i requires 0 <= i < |q| - 1 => if i < k then q[i] else q[i + 1])
  }

  /** `q` with `t` put in at `k`. */
  ghost function Inserted<T>(q: seq<T>, k: nat, t: T): (r: seq<T>)
    requires k <= |q|
    ensures |r| == |q| + 1
  {
    seq(|q| + 1, i requires 0 <= i < |q| + 1 => if i < k then q[i] else if i == k then t else q[i - 1])
  }

  /** Taking out one element leaves the others distinct, and does not leave another copy. */
  lemma DistinctDrop<T>(q: seq<T>, k: nat)
    requires Distinct(q) && k < |q|
    ensures Distinct(Without(q, k)) && q[k] !in Without(q, k)
  {
    var r := Without(q, k);
    forall i: nat, j: nat ensures Differ(r, i, j) {
      assert Differ(q, if i < k then i else i + 1, if j < k then j else j + 1);
    }
    forall i | 0 <= i < |r| ensures r[i] != q[k] {
      assert Differ(q, i, k) && Differ(q, k, i + 1);
    }
  }

  /** Putting in a new element keeps the others distinct. */
  lemma DistinctInsert<T>(q: seq<T>, k: nat, t: T)
    requires Distinct(q) && t !in q && k <= |q|
    ensures Distinct(Inserted(q, k, t))
  {
    var r := Inserted(q, k, t);
    forall i: nat, j: nat ensures Differ(r, i, j) {
      assert i == k || j == k || Differ(q, if i > k then i - 1 else i, if j > k then j - 1 else j);
    }
  }
}
