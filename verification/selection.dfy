/** Circuit selection (`getRandomDistinctNodes` in users/user.ts). The
    source draws `Math.floor(Math.random() * nodes.length)` until it holds
    `count` distinct indices or has seen every index. `Math.random` is
    modelled as a finite oracle: the sequence of values in [0, 1) it would
    return. */
module CircuitSelection {

  /** The index a draw `r` in [0, 1) picks among `n` nodes. */
  function DrawIndex(r: real, n: nat): (i: int)
    requires 0.0 <= r < 1.0
    ensures n > 0 ==> 0 <= i < n
  {
    ScaledFloorBelow(r, n);
    (r * n as real).Floor
  }

  lemma ScaledFloorBelow(r: real, n: nat)
    requires 0.0 <= r < 1.0
    ensures n > 0 ==> 0 <= (r * n as real).Floor < n
  {
  }

  predicate ValidDraws(draws: seq<real>)
  {
    forall k :: 0 <= k < |draws| ==> 0.0 <= draws[k] < 1.0
  }

  function Indices(draws: seq<real>, n: nat): (ix: seq<int>)
    requires ValidDraws(draws)
    ensures |ix| == |draws|
    ensures n > 0 ==> forall k :: 0 <= k < |ix| ==> 0 <= ix[k] < n
  {
    seq(|draws|, k requires 0 <= k < |draws| => DrawIndex(draws[k], n))
  }

  predicate Distinct(s: seq<int>)
  {
    forall i, j :: 0 <= i < j < |s| ==> s[i] != s[j]
  }

  /** The position at which `x` first occurs in `s`. */
  function FirstIndex(s: seq<int>, x: int): (a: nat)
    requires x in s
    ensures a < |s| && s[a] == x
  {
    if s[0] == x then 0
    else
      assert x in s[1..];
      1 + FirstIndex(s[1..], x)
  }

  /** No occurrence of `x` precedes `FirstIndex(s, x)`. */
  lemma {:induction false} FirstIndexIsFirst(s: seq<int>, x: int, b: nat)
    requires x in s && b < FirstIndex(s, x)
    ensures s[b] != x
  {
    if b > 0 {
      assert x in s[1..];
      FirstIndexIsFirst(s[1..], x, b - 1);
    }
  }

  /** A value first drawn within a prefix is first drawn at the same place in
      the whole sequence. */
  lemma FirstIndexPrefix(s: seq<int>, k: nat, x: int)
    requires k <= |s| && x in s[..k]
    ensures FirstIndex(s[..k], x) == FirstIndex(s, x)
  {
    var a := FirstIndex(s[..k], x);
    var b := FirstIndex(s, x);
    if a < b {
      FirstIndexIsFirst(s, x, a);
    } else if b < a {
      FirstIndexIsFirst(s[..k], x, b);
    }
  }

  /** The distinct values of `s`, each at the place it first occurs: no value
      twice, every value of `s` present, and values in the order in which
      they were first drawn. */
  function FirstOccurrences(s: seq<int>): (r: seq<int>)
    ensures Distinct(r)
    ensures forall x :: x in r <==> x in s
    ensures forall i, j {:trigger FirstIndex(s, r[i]), FirstIndex(s, r[j])} ::
      0 <= i < j < |r| ==> FirstIndex(s, r[i]) < FirstIndex(s, r[j])
    decreases |s|
  {
    if |s| == 0 then []
    else
      var s' := s[..|s| - 1];
      var p := FirstOccurrences(s');
      var x := s[|s| - 1];
      assert forall y :: y in s <==> y in s' || y == x;
      assert forall i :: 0 <= i < |p| ==> FirstIndex(s, p[i]) == FirstIndex(s', p[i]) < |s'| by {
        forall i | 0 <= i < |p|
          ensures FirstIndex(s, p[i]) == FirstIndex(s', p[i]) < |s'|
        {
          FirstIndexPrefix(s, |s| - 1, p[i]);
        }
      }
      if x in p then p
      else
        assert x !in s' && s[..|s| - 1] == s';
        assert FirstIndex(s, x) == |s| - 1;
        p + [x]
  }

  /** The number of nodes the loop stops at, given enough draws. */
  function Bound(count: int, n: nat): nat
  {
    if count <= 0 then 0 else if count < n then count else n
  }

  /** Reference selection: the first `Bound(count, |nodes|)` distinct drawn
      indices, or all of them when the oracle has fewer to offer. */
  function SelectedIndices(n: nat, count: int, draws: seq<real>): seq<int>
    requires ValidDraws(draws)
  {
    var f := FirstOccurrences(Indices(draws, n));
    if |f| <= Bound(count, n) then f else f[..Bound(count, n)]
  }

  /** The oracle is long enough for the loop to run to its own exit test. */
  predicate OracleSuffices(n: nat, count: int, draws: seq<real>)
    requires ValidDraws(draws)
  {
    |FirstOccurrences(Indices(draws, n))| >= Bound(count, n)
  }

  function SelectedNodes<T>(nodes: seq<T>, count: int, draws: seq<real>): (r: seq<T>)
    requires ValidDraws(draws)
  {
    var p := SelectedIndices(|nodes|, count, draws);
    SelectedIndicesInRange(|nodes|, count, draws);
    seq(|p|, i requires 0 <= i < |p| => nodes[p[i]])
  }

  lemma SelectedIndicesInRange(n: nat, count: int, draws: seq<real>)
    requires ValidDraws(draws)
    ensures forall i :: 0 <= i < |SelectedIndices(n, count, draws)| ==> 0 <= SelectedIndices(n, count, draws)[i] < n
  {
    var ix := Indices(draws, n);
    var f := FirstOccurrences(ix);
    var p := SelectedIndices(n, count, draws);
    forall i | 0 <= i < |p|
      ensures 0 <= p[i] < n
    {
      assert p[i] == f[i] && f[i] in ix;
      assert |p| <= n;
    }
  }

  /** Extending the draws only extends the list of first occurrences. */
  lemma {:induction false} FirstOccurrencesPrefix(s: seq<int>, k: nat)
    requires k <= |s|
    ensures |FirstOccurrences(s[..k])| <= |FirstOccurrences(s)|
    ensures FirstOccurrences(s[..k]) == FirstOccurrences(s)[..|FirstOccurrences(s[..k])|]
    decreases |s| - k
  {
    if k < |s| {
      FirstOccurrencesPrefix(s, k + 1);
      assert s[..k + 1][..k] == s[..k];
    } else {
      assert s[..k] == s;
    }
  }

  /** `getRandomDistinctNodes(nodes, count)`, driven by the oracle `draws`.
      The loop keeps the source's exit test and also stops when the oracle is
      used up. `picked` are the chosen indices, in the order they were drawn. */
  method GetRandomDistinctNodes<T>(nodes: seq<T>, count: int, draws: seq<real>)
    returns (result: seq<T>, picked: seq<int>)
    requires ValidDraws(draws)
    ensures picked == SelectedIndices(|nodes|, count, draws)
    ensures Distinct(picked)
    ensures |result| == |picked|
    ensures forall i :: 0 <= i < |picked| ==> 0 <= picked[i] < |nodes| && result[i] == nodes[picked[i]]
    ensures |result| <= Bound(count, |nodes|)
    ensures |result| == Bound(count, |nodes|) <==> OracleSuffices(|nodes|, count, draws)
  {
    var ix := Indices(draws, |nodes|);
    result := [];
    picked := [];
    var indexes: set<int> := {};
    var k := 0;
    assert ix[..0] == [];
    while |result| < count && |indexes| < |nodes| && k < |draws|
      invariant k <= |draws|
      invariant picked == FirstOccurrences(ix[..k])
      invariant indexes == set x | x in picked
      invariant |indexes| == |picked| == |result|
      invariant forall i :: 0 <= i < |picked| ==> 0 <= picked[i] < |nodes|
      invariant result == NodesAt(nodes, picked)
      invariant |result| <= Bound(count, |nodes|)
      decreases |draws| - k
    {
      picked, indexes, result := DrawOnce(nodes, ix, k, picked, indexes, result);
      k := k + 1;
    }
    StopPointSelects(|nodes|, count, draws, k);
  }

  /** One turn of the loop in `getRandomDistinctNodes`: the index `ix[k]`
      is kept, together with its node, unless it was drawn before. */
  method DrawOnce<T>(nodes: seq<T>, ix: seq<int>, k: nat, picked: seq<int>, indexes: set<int>, result: seq<T>)
    returns (picked': seq<int>, indexes': set<int>, result': seq<T>)
    requires k < |ix|
    requires forall j :: 0 <= j < |ix| ==> 0 <= ix[j] < |nodes|
    requires picked == FirstOccurrences(ix[..k])
    requires indexes == set x | x in picked
    requires |indexes| == |picked|
    requires forall i :: 0 <= i < |picked| ==> 0 <= picked[i] < |nodes|
    requires result == NodesAt(nodes, picked)
    ensures picked' == FirstOccurrences(ix[..k + 1])
    ensures indexes' == set x | x in picked'
    ensures |indexes'| == |picked'| <= |picked| + 1
    ensures forall i :: 0 <= i < |picked'| ==> 0 <= picked'[i] < |nodes|
    ensures result' == NodesAt(nodes, picked')
  {
    var index := ix[k];
    FirstOccurrencesStep(ix, k);
    assert index in indexes <==> index in picked;
    picked', indexes', result' := picked, indexes, result;
    if index !in indexes {
      NodesAtAppend(nodes, picked, index);
      IndexSetAppend(picked, indexes, index);
      indexes' := indexes + {index};
      picked' := picked + [index];
      result' := result + [nodes[index]];
    }
    PickedInRange(ix, k + 1, |nodes|);
  }

  lemma IndexSetAppend(picked: seq<int>, indexes: set<int>, index: int)
    requires indexes == set x | x in picked
    requires |indexes| == |picked|
    requires index !in indexes
    ensures indexes + {index} == set x | x in picked + [index]
    ensures |indexes + {index}| == |picked + [index]|
  {
    assert forall x :: x in picked + [index] <==> x in picked || x == index;
  }

  /** One more draw adds its index at the end unless it was drawn before. */
  lemma FirstOccurrencesStep(s: seq<int>, k: nat)
    requires k < |s|
    ensures FirstOccurrences(s[..k + 1]) ==
      if s[k] in FirstOccurrences(s[..k]) then FirstOccurrences(s[..k])
      else FirstOccurrences(s[..k]) + [s[k]]
  {
    assert s[..k + 1][..k] == s[..k];
  }

  /** The nodes at positions `p`, in that order. */
  function NodesAt<T>(nodes: seq<T>, p: seq<int>): (r: seq<T>)
    requires forall i :: 0 <= i < |p| ==> 0 <= p[i] < |nodes|
    ensures |r| == |p|
    ensures forall i :: 0 <= i < |p| ==> r[i] == nodes[p[i]]
  {
    if |p| == 0 then []
    else NodesAt(nodes, p[..|p| - 1]) + [nodes[p[|p| - 1]]]
  }

  lemma NodesAtAppend<T>(nodes: seq<T>, p: seq<int>, x: int)
    requires forall i :: 0 <= i < |p| ==> 0 <= p[i] < |nodes|
    requires 0 <= x < |nodes|
    ensures NodesAt(nodes, p + [x]) == NodesAt(nodes, p) + [nodes[x]]
  {
    assert (p + [x])[..|p|] == p;
  }

  /** Indices drawn among `n` nodes stay below `n` once deduplicated. */
  lemma PickedInRange(ix: seq<int>, k: nat, n: nat)
    requires k <= |ix|
    requires forall j :: 0 <= j < |ix| ==> 0 <= ix[j] < n
    ensures forall i :: 0 <= i < |FirstOccurrences(ix[..k])| ==> 0 <= FirstOccurrences(ix[..k])[i] < n
  {
    var f := FirstOccurrences(ix[..k]);
    forall i | 0 <= i < |f|
      ensures 0 <= f[i] < n
    {
      assert f[i] in ix[..k];
    }
  }

  /** Where the loop stops, the indices picked so far are the reference
      selection, and they reach the bound exactly when the oracle suffices. */
  lemma StopPointSelects(n: nat, count: int, draws: seq<real>, k: nat)
    requires ValidDraws(draws) && k <= |draws|
    requires |FirstOccurrences(Indices(draws, n)[..k])| <= Bound(count, n)
    requires |FirstOccurrences(Indices(draws, n)[..k])| == Bound(count, n) || k == |draws|
    ensures FirstOccurrences(Indices(draws, n)[..k]) == SelectedIndices(n, count, draws)
    ensures |FirstOccurrences(Indices(draws, n)[..k])| == Bound(count, n) <==> OracleSuffices(n, count, draws)
  {
    var ix := Indices(draws, n);
    FirstOccurrencesPrefix(ix, k);
    if k == |draws| {
      assert ix[..k] == ix;
    }
  }

  /** When the oracle suffices the selection has exactly
      `min(count, |nodes|)` entries (for a positive `count`), so a directory
      with fewer nodes than `count` gives a shorter list, not an error; each
      entry is a node of the directory at a distinct position. */
  lemma SelectedNodesShape<T>(nodes: seq<T>, count: int, draws: seq<real>)
    requires ValidDraws(draws)
    ensures |SelectedNodes(nodes, count, draws)| <= Bound(count, |nodes|)
    ensures OracleSuffices(|nodes|, count, draws) ==> |SelectedNodes(nodes, count, draws)| == Bound(count, |nodes|)
    ensures Distinct(SelectedIndices(|nodes|, count, draws))
    ensures forall i :: 0 <= i < |SelectedIndices(|nodes|, count, draws)| ==>
      0 <= SelectedIndices(|nodes|, count, draws)[i] < |nodes|
    ensures forall i :: 0 <= i < |SelectedNodes(nodes, count, draws)| ==>
      SelectedNodes(nodes, count, draws)[i] == nodes[SelectedIndices(|nodes|, count, draws)[i]]
  {
    var f := FirstOccurrences(Indices(draws, |nodes|));
    var p := SelectedIndices(|nodes|, count, draws);
    SelectedIndicesInRange(|nodes|, count, draws);
    if |f| > Bound(count, |nodes|) {
      assert forall i, j :: 0 <= i < j < |p| ==> p[i] == f[i] && p[j] == f[j];
    }
  }
}
