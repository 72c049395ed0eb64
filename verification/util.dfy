/** Small helpers the sequencer relies on: optional values, the failure
    type that stands for `mus`'s panics, the first-position linear
    search `index_of` (src/util.rs) and `Vec::swap_remove`. */
module Util {

  datatype Option<+T> = None | Some(value: T)

  /** Why an operation of the graph store (`State` in src/main.rs) would panic. */
  datatype Fault =
    | UnknownNode     // `adj.remove(node).unwrap()` on a missing node
    | UnknownEdge     // `edges.remove(edge).unwrap()` on a missing edge
    | MissingAdjList  // `adj[u]` indexing a node without an adjacency entry
    | MissingEntry    // `index_of(..).unwrap()` on an entry that is not in the list
    | SelfLoop        // the `u != v` assertion of `Edge::new`

  /** Either the value an operation computes or the panic it would raise. */
  datatype Result<+T> = Ok(value: T) | Err(fault: Fault) {
    predicate IsFailure() {
      Err?
    }

    function PropagateFailure<U>(): Result<U>
      requires Err?
    {
      Err(fault)
    }

    function Extract(): T
      requires Ok?
    {
      value
    }
  }

  /** No element occurs twice. */
  predicate NoDup<T(==)>(s: seq<T>) {
    forall i, j :: 0 <= i < j < |s| ==> s[i] != s[j]
  }

  /** `iter().position(|e| e == elem)` started at index `k`. */
  function IndexOfFrom<T(==)>(s: seq<T>, x: T, k: nat): (r: Option<nat>)
    requires k <= |s|
    ensures r.Some? ==> k <= r.value < |s| && s[r.value] == x
    ensures r.Some? ==> forall j :: k <= j < r.value ==> s[j] != x
    ensures r.None? <==> forall j :: k <= j < |s| ==> s[j] != x
    decreases |s| - k
  {
    if k == |s| then None
    else if s[k] == x then Some(k)
    else IndexOfFrom(s, x, k + 1)
  }

  /** The first position of `x` in `s`, or None when `x` does not occur. */
  function IndexOf<T(==)>(s: seq<T>, x: T): (r: Option<nat>)
    ensures r.Some? ==> r.value < |s| && s[r.value] == x
    ensures r.Some? ==> forall j :: 0 <= j < r.value ==> s[j] != x
    ensures r.None? <==> x !in s
  {
    IndexOfFrom(s, x, 0)
  }

  /** `Vec::swap_remove`: the last element fills the hole left at `i`. */
  function SwapRemove<T>(s: seq<T>, i: nat): (r: seq<T>)
    requires i < |s|
    ensures |r| == |s| - 1
    ensures forall j :: 0 <= j < |r| ==> r[j] == (if j == i then s[|s| - 1] else s[j])
  {
    var last := |s| - 1;
    if i == last then s[..i] else s[..i] + [s[last]] + s[i + 1..last]
  }

  /** `swap_remove` drops exactly one occurrence of the removed value. */
  lemma SwapRemoveMultiset<T>(s: seq<T>, i: nat)
    requires i < |s|
    ensures multiset(SwapRemove(s, i)) == multiset(s) - multiset{s[i]}
  {
    var last := |s| - 1;
    if i == last {
      assert s == s[..i] + [s[i]];
    } else {
      assert s == s[..i] + [s[i]] + s[i + 1..last] + [s[last]];
      assert SwapRemove(s, i) == s[..i] + [s[last]] + s[i + 1..last];
    }
  }

  /** Removing one entry of a duplicate-free list removes exactly that value. */
  lemma SwapRemoveNoDup<T>(s: seq<T>, i: nat)
    requires i < |s| && NoDup(s)
    ensures NoDup(SwapRemove(s, i))
    ensures forall x :: x in SwapRemove(s, i) <==> x in s && x != s[i]
  {
    var r := SwapRemove(s, i);
    var last := |s| - 1;
    // position in s that supplied position j of r
    forall j, k | 0 <= j < k < |r|
      ensures r[j] != r[k]
    {
      var sj := if j == i then last else j;
      var sk := if k == i then last else k;
      assert sj != sk;
    }
    forall x
      ensures x in r <==> x in s && x != s[i]
    {
      if x in r {
        var j :| 0 <= j < |r| && r[j] == x;
        var sj := if j == i then last else j;
        assert s[sj] == x && sj != i;
      }
      if x in s && x != s[i] {
        var k :| 0 <= k < |s| && s[k] == x;
        assert k != i;
        if k == last {
          assert r[i] == x;
        } else {
          assert r[k] == x;
        }
      }
    }
  }

  /** After `swap_remove(i)` the prefix before `i` is untouched and the
      suffix from `i` holds exactly what followed `i` before. */
  lemma SwapRemoveSuffix<T>(s: seq<T>, i: nat)
    requires i < |s|
    ensures SwapRemove(s, i)[..i] == s[..i]
    ensures multiset(SwapRemove(s, i)[i..]) == multiset(s[i + 1..])
  {
    var r := SwapRemove(s, i);
    var last := |s| - 1;
    if i < last {
      assert r[i..] == [s[last]] + s[i + 1..last];
      assert s[i + 1..] == s[i + 1..last] + [s[last]];
    }
  }

  /** Pushing a value and swap-removing it again gives the list back. */
  lemma PushThenSwapRemoveLast<T>(s: seq<T>, x: T)
    ensures SwapRemove(s + [x], |s|) == s
  {
  }

  /** The members of `s` below `bound`, in ascending order: the order in
      which a map keyed by issued ids is enumerated. */
  function Ascending(s: set<nat>, bound: nat): (r: seq<nat>)
    ensures forall x :: x in r <==> x in s && x < bound
    ensures forall i, j :: 0 <= i < j < |r| ==> r[i] < r[j]
  {
    if bound == 0 then []
    else
      var pre := Ascending(s, bound - 1);
      assert forall k :: 0 <= k < |pre| ==> pre[k] < bound - 1 by {
        forall k | 0 <= k < |pre| ensures pre[k] < bound - 1 {
          assert pre[k] in pre;
        }
      }
      pre + (if bound - 1 in s then [bound - 1] else [])
  }

  lemma AscendingNoDup(s: set<nat>, bound: nat)
    ensures NoDup(Ascending(s, bound))
  {
  }

  /** Finds the head of `a` in its permutation `b`: `b` is `pre`, that
      element, then `post`, and the rest of `a` is a permutation of the rest
      of `b`. */
  lemma TakeOut<T>(a: seq<T>, b: seq<T>) returns (pre: seq<T>, post: seq<T>)
    requires a != [] && multiset(a) == multiset(b)
    ensures b == pre + ([a[0]] + post)
    ensures multiset(a[1..]) == multiset(pre + post)
  {
    var x := a[0];
    assert x in multiset(b);
    var k :| 0 <= k < |b| && b[k] == x;
    pre, post := b[..k], b[k + 1..];
    assert b == pre + ([x] + post);
    calc {
      multiset(a[1..]) + multiset{x};
      { HeadBack(a); }
      multiset(a);
      multiset(b);
      { DropAtMultiset(b, k); }
      multiset(pre + post) + multiset{x};
    }
    CancelOne(multiset(a[1..]), multiset(pre + post), x);
  }

  lemma HeadBack<T>(a: seq<T>)
    requires a != []
    ensures multiset(a[1..]) + multiset{a[0]} == multiset(a)
  {
    assert a == [a[0]] + a[1..];
  }

  lemma CancelOne<T>(m: multiset<T>, n: multiset<T>, x: T)
    requires m + multiset{x} == n + multiset{x}
    ensures m == n
  {
    forall y
      ensures m[y] == n[y]
    {
      assert (m + multiset{x})[y] == (n + multiset{x})[y];
    }
  }

  /** Putting the element at `k` back after dropping it gives the multiset
      of the whole. */
  lemma DropAtMultiset<T>(s: seq<T>, k: nat)
    requires k < |s|
    ensures multiset(s[..k] + s[k + 1..]) + multiset{s[k]} == multiset(s)
  {
    assert s == s[..k] + [s[k]] + s[k + 1..];
  }
}
