/** Sequence vocabulary shared by the model: orderings, boolean-mask
    selection (numpy `arr[mask]`, `np.delete`, polars `filter`) and the
    ascending sort numpy provides as `np.sort`. */
module Seqs {

  predicate Sorted(s: seq<int>) {
    forall p, q :: 0 <= p < q < |s| ==> s[p] <= s[q]
  }

  predicate StrictlyIncreasing(s: seq<int>) {
    forall p, q :: 0 <= p < q < |s| ==> s[p] < s[q]
  }

  predicate Distinct<T(==)>(s: seq<T>) {
    forall p, q :: 0 <= p < q < |s| ==> s[p] != s[q]
  }

  /** `np.arange(n)`. */
  function Range(n: nat): (r: seq<nat>)
    ensures |r| == n && forall k :: 0 <= k < n ==> r[k] == k
  {
    seq(n, k requires 0 <= k < n => k)
  }

  /** The positions at which `mask` is true, in increasing order
      (`np.arange(len(mask))[mask]`). */
  function Indices(mask: seq<bool>): (r: seq<nat>)
    ensures |r| <= |mask|
    ensures StrictlyIncreasing(r)
    ensures forall p :: 0 <= p < |r| ==> r[p] < |mask| && mask[r[p]]
    ensures forall k :: 0 <= k < |mask| && mask[k] ==> k in r
  {
    if mask == [] then []
    else Indices(mask[..|mask| - 1]) + (if mask[|mask| - 1] then [|mask| - 1] else [])
  }

  /** The elements of `s` at the positions `idx`, in the order of `idx`. */
  function Pick<T>(s: seq<T>, idx: seq<nat>): (r: seq<T>)
    requires forall p :: 0 <= p < |idx| ==> idx[p] < |s|
    ensures |r| == |idx| && forall p :: 0 <= p < |idx| ==> r[p] == s[idx[p]]
  {
    seq(|idx|, p requires 0 <= p < |idx| => s[idx[p]])
  }

  /** The elements of `s` whose mask entry is true, in their original order. */
  function Select<T>(s: seq<T>, mask: seq<bool>): (r: seq<T>)
    requires |mask| == |s|
  {
    Pick(s, Indices(mask))
  }

  /** Selection keeps exactly the masked elements, in order: the k-th
      kept element is the k-th element whose mask is set. */
  lemma SelectExactly<T>(s: seq<T>, mask: seq<bool>)
    requires |mask| == |s|
    ensures forall x :: x in Select(s, mask) ==> exists k :: 0 <= k < |s| && mask[k] && s[k] == x
    ensures forall k :: 0 <= k < |s| && mask[k] ==> s[k] in Select(s, mask)
    ensures |Select(s, mask)| <= |s|
    ensures |Select(s, mask)| == |Indices(mask)|
    ensures forall p :: 0 <= p < |Indices(mask)| ==> Select(s, mask)[p] == s[Indices(mask)[p]]
  {
    var idx := Indices(mask);
    forall x | x in Select(s, mask)
      ensures exists k :: 0 <= k < |s| && mask[k] && s[k] == x
    {
      var p :| 0 <= p < |idx| && Select(s, mask)[p] == x;
      assert mask[idx[p]] && s[idx[p]] == x;
    }
    forall k | 0 <= k < |s| && mask[k]
      ensures s[k] in Select(s, mask)
    {
      var p :| 0 <= p < |idx| && idx[p] == k;
      assert Select(s, mask)[p] == s[k];
    }
  }

  /** Insertion of `x` into an ascending sequence. */
  function Insert(x: int, s: seq<int>): (r: seq<int>)
    requires Sorted(s)
    ensures Sorted(r) && multiset(r) == multiset(s) + multiset{x}
    ensures |r| == |s| + 1 && (r[0] == x || (s != [] && r[0] == s[0]))
  {
    if s == [] || x <= s[0] then [x] + s
    else
      assert s == [s[0]] + s[1..];
      [s[0]] + Insert(x, s[1..])
  }

  /** `np.sort`: the ascending permutation of `s`. */
  function Sort(s: seq<int>): (r: seq<int>)
    ensures Sorted(r) && multiset(r) == multiset(s)
  {
    if s == [] then []
    else
      assert s == [s[0]] + s[1..];
      Insert(s[0], Sort(s[1..]))
  }

  /** A prefix of a prefix is a prefix. */
  lemma PrefixOfPrefix<T>(a: seq<T>, b: seq<T>, c: seq<T>)
    requires |a| <= |b| <= |c| && b[..|a|] == a && c[..|b|] == b
    ensures c[..|a|] == a
  {
    assert c[..|a|] == c[..|b|][..|a|];
  }
}
