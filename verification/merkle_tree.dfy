/** The mixed-height batched Merkle tree of merkle-tree/src/lib.rs and the MMCS built on
    it. The leaf hasher `H` and the 2-to-1 compression `C` are the caller's capabilities;
    here they are function-valued parameters `h` and `c`. */
module MerkleTrees {
  import opened Wrappers
  import opened Matrices

  /** The prover data: the matrices as given, and every digest layer, leaves first. */
  datatype MerkleTree<L, D> = MerkleTree(leaves: seq<Matrix<L>>, digestLayers: seq<seq<D>>)

  /** The two assertions `MerkleTree::new` makes before it builds anything. */
  datatype BuildError = NoMatrices | HeightNotPowerOfTwo

  /** What `open_batch` returns: one row per matrix, and the (so far always empty) proof. */
  datatype BatchOpening<L, D> = BatchOpening(values: seq<seq<L>>, proof: seq<D>)

  /** `MerkleTreeMMCS`: the hasher and compressor a commitment is made with. */
  datatype MerkleTreeMmcs<!L, !D> = MerkleTreeMmcs(hash: seq<L> -> D, compress: (D, D) -> D)

  /** The digest of row `i` of a group of matrices: the hash of their rows, concatenated. */
  function HashRow<L, D>(h: seq<L> -> D, group: seq<Matrix<L>>, i: nat): D
    requires AllAtLeast(group, i + 1)
  {
    h(ConcatRows(group, i))
  }

  /** One step of the construction loop: compress adjacent pairs of `prev` and, when
      matrices are injected at this layer, compress the hash of their row `i` into entry `i`.
      Only rows `0..|prev|/2` of an injected matrix are read. */
  function NextLayer<L, D>(h: seq<L> -> D, c: (D, D) -> D, prev: seq<D>, injected: seq<Matrix<L>>): (next: seq<D>)
    requires AllAtLeast(injected, |prev| / 2)
    ensures |next| == |prev| / 2
  {
    seq(|prev| / 2, i requires 0 <= i < |prev| / 2 =>
      var digest := c(prev[2 * i], prev[2 * i + 1]);
      if |injected| == 0 then digest else c(digest, HashRow(h, injected, i)))
  }

  /** Layer 0: entry `i` hashes row `i` of the tallest matrices. */
  function LeafLayer<L, D>(h: seq<L> -> D, tallest: seq<Matrix<L>>, height: nat): (layer: seq<D>)
    requires AllAtLeast(tallest, height)
    ensures |layer| == height
  {
    seq(height, i requires 0 <= i < height => HashRow(h, tallest, i))
  }

  /** The layers built after `prev` until a layer of length 1. `rest` is what is left of the
      height-sorted matrices; at each layer the run of matrices whose height equals
      `|prev|` is taken off its front (`peeking_take_while`) and injected. */
  function LayersFrom<L, D>(h: seq<L> -> D, c: (D, D) -> D, prev: seq<D>, rest: seq<Matrix<L>>): (layers: seq<seq<D>>)
    requires |prev| >= 1
    decreases |prev|
  {
    if |prev| == 1 then []
    else
      var n := RunLength(rest, |prev|);
      var next := NextLayer(h, c, prev, rest[..n]);
      [next] + LayersFrom(h, c, next, rest[n..])
  }

  /** `MerkleTree::new`. Panics on an empty list or a height that is not a power of two; both
      are modelled as a `Failure`. */
  function New<L, D>(h: seq<L> -> D, c: (D, D) -> D, leaves: seq<Matrix<L>>): (r: Result<MerkleTree<L, D>, BuildError>)
    ensures r == Failure(NoMatrices) <==> |leaves| == 0
    ensures r == Failure(HeightNotPowerOfTwo) <==> |leaves| > 0 && !AllHeightsPowerOfTwo(leaves)
    ensures r.Success? ==> r.value.leaves == leaves && |r.value.digestLayers| > 0
  {
    if |leaves| == 0 then Failure(NoMatrices)
    else if !AllHeightsPowerOfTwo(leaves) then Failure(HeightNotPowerOfTwo)
    else
      var sorted := SortByHeightDesc(leaves);
      SortedStartsWithMax(leaves);
      var maxHeight := sorted[0].Height();
      assert IsPowerOfTwo(maxHeight) by {
        var k :| 0 <= k < |leaves| && leaves[k].Height() == MaxHeight(leaves);
      }
      var n := RunLength(sorted, maxHeight);
      var first := LeafLayer(h, sorted[..n], maxHeight);
      Success(MerkleTree(leaves, [first] + LayersFrom(h, c, first, sorted[n..])))
  }

  predicate HasRoot<L, D>(tree: MerkleTree<L, D>) {
    |tree.digestLayers| > 0 && |tree.digestLayers[|tree.digestLayers| - 1]| > 0
  }

  /** `root()`: the first (for a built tree, the only) entry of the last layer. */
  function Root<L, D>(tree: MerkleTree<L, D>): D
    requires HasRoot(tree)
  {
    tree.digestLayers[|tree.digestLayers| - 1][0]
  }

  /** `get_matrices`: the stored leaves. */
  function GetMatrices<L, D>(tree: MerkleTree<L, D>): seq<Matrix<L>> {
    tree.leaves
  }

  /** `open_batch`: row `row` of every stored matrix in input order, with an empty proof.
      Reading a row past a matrix's height panics in the source, hence the requires. */
  function OpenBatch<L, D>(row: nat, tree: MerkleTree<L, D>): (batch: BatchOpening<L, D>)
    requires AllAtLeast(tree.leaves, row + 1)
    ensures |batch.values| == |tree.leaves|
    ensures forall k :: 0 <= k < |batch.values| ==> batch.values[k] == tree.leaves[k].rows[row]
    ensures batch.proof == []
  {
    BatchOpening(seq(|tree.leaves|, k requires 0 <= k < |tree.leaves| => tree.leaves[k].rows[row]), [])
  }

  /** `DirectMMCS::commit`: build the tree and return its root beside it. */
  function Commit<L, D>(mmcs: MerkleTreeMmcs<L, D>, inputs: seq<Matrix<L>>): (r: Result<(D, MerkleTree<L, D>), BuildError>)
    ensures r.Success? <==> |inputs| > 0 && AllHeightsPowerOfTwo(inputs)
    ensures r.Success? ==>
      var (root, tree) := r.value;
      && tree == New(mmcs.hash, mmcs.compress, inputs).value
      && GetMatrices(tree) == inputs
      && |tree.digestLayers| == Log2(MaxHeight(inputs)) + 1
      && |tree.digestLayers[|tree.digestLayers| - 1]| == 1
      && root == tree.digestLayers[|tree.digestLayers| - 1][0]
    ensures r.Failure? ==> r.error == New(mmcs.hash, mmcs.compress, inputs).error
  {
    var tree :- New(mmcs.hash, mmcs.compress, inputs);
    NewLayerCount(mmcs.hash, mmcs.compress, inputs);
    Success((Root(tree), tree))
  }

  // ---------------------------------------------------------------------------
  // The shape of the tree, stated without the sort and the peeking iterator
  // ---------------------------------------------------------------------------

  /** The matrices injected when the previous layer has length `len`: none at the top
      (the tallest matrices already formed layer 0), otherwise every matrix of height `len`,
      in input order. */
  function Injected<L>(leaves: seq<Matrix<L>>, maxHeight: nat, len: nat): (group: seq<Matrix<L>>)
    ensures AllAtLeast(group, len)
  {
    if len == maxHeight then [] else WithHeight(leaves, len)
  }

  /** The reference definition, which injects by height alone: each layer after `prev` compresses the one before
      and folds in `Injected(leaves, maxHeight, length of the one before)`. */
  function RefLayers<L, D>(h: seq<L> -> D, c: (D, D) -> D, leaves: seq<Matrix<L>>, maxHeight: nat, prev: seq<D>): seq<seq<D>>
    requires |prev| >= 1
    decreases |prev|
  {
    if |prev| == 1 then []
    else
      var next := NextLayer(h, c, prev, Injected(leaves, maxHeight, |prev|));
      [next] + RefLayers(h, c, leaves, maxHeight, next)
  }

  /** What the remaining sorted matrices look like while the layer `prev` is being extended. */
  ghost predicate RestInvariant<L>(leaves: seq<Matrix<L>>, maxHeight: nat, prevLen: nat, rest: seq<Matrix<L>>) {
    && SortedByHeightDesc(rest)
    && AllHeightsPowerOfTwo(rest)
    && (forall k :: 0 <= k < |rest| ==> rest[k].Height() <= prevLen)
    && (forall q: nat :: 1 <= q <= prevLen ==> WithHeight(rest, q) == Injected(leaves, maxHeight, q))
  }

  /** The peeking iterator over the sorted matrices injects, at every layer, exactly the group
      the reference definition injects by height alone. */
  lemma {:induction false} LayersFromIsRef<L, D>(h: seq<L> -> D, c: (D, D) -> D, leaves: seq<Matrix<L>>, maxHeight: nat,
                                                 prev: seq<D>, rest: seq<Matrix<L>>)
    requires IsPowerOfTwo(|prev|)
    requires RestInvariant(leaves, maxHeight, |prev|, rest)
    ensures LayersFrom(h, c, prev, rest) == RefLayers(h, c, leaves, maxHeight, prev)
    decreases |prev|
  {
    if |prev| > 1 {
      var p := |prev|;
      var n := RunLength(rest, p);
      RunOfSortedIsFilter(rest, p);
      assert rest[..n] == Injected(leaves, maxHeight, p);
      var next := NextLayer(h, c, prev, rest[..n]);
      RestAfterLayer(leaves, maxHeight, p, rest);
      LayersFromIsRef(h, c, leaves, maxHeight, next, rest[n..]);
    }
  }

  /** There are `log2 |prev|` layers after `prev`, and the last layer has length 1. */
  lemma {:induction false} RefLayersCount<L, D>(h: seq<L> -> D, c: (D, D) -> D, leaves: seq<Matrix<L>>, maxHeight: nat, prev: seq<D>)
    requires IsPowerOfTwo(|prev|)
    ensures |RefLayers(h, c, leaves, maxHeight, prev)| == Log2(|prev|)
    ensures LastLength([prev] + RefLayers(h, c, leaves, maxHeight, prev)) == 1
    decreases |prev|
  {
    if |prev| > 1 {
      var next := NextLayer(h, c, prev, Injected(leaves, maxHeight, |prev|));
      RefLayersCount(h, c, leaves, maxHeight, next);
      var tail := [next] + RefLayers(h, c, leaves, maxHeight, next);
      assert [prev] + RefLayers(h, c, leaves, maxHeight, prev) == [prev] + tail;
    }
  }

  function LastLength<D>(layers: seq<seq<D>>): nat
    requires |layers| > 0
  {
    |layers[|layers| - 1]|
  }

  /** Layer `k` has `top / 2^k` entries. */
  ghost predicate Halving<D>(layers: seq<seq<D>>, top: nat) {
    forall k :: 0 <= k < |layers| ==> |layers[k]| * Pow2(k) == top
  }

  lemma {:induction false} RefLayersHalve<L, D>(h: seq<L> -> D, c: (D, D) -> D, leaves: seq<Matrix<L>>, maxHeight: nat, prev: seq<D>)
    requires IsPowerOfTwo(|prev|)
    ensures Halving([prev] + RefLayers(h, c, leaves, maxHeight, prev), |prev|)
    decreases |prev|
  {
    if |prev| > 1 {
      var layers := [prev] + RefLayers(h, c, leaves, maxHeight, prev);
      var next := NextLayer(h, c, prev, Injected(leaves, maxHeight, |prev|));
      RefLayersHalve(h, c, leaves, maxHeight, next);
      var tail := [next] + RefLayers(h, c, leaves, maxHeight, next);
      assert layers == [prev] + tail;
      HalvingCons(prev, tail);
    }
  }

  lemma HalvingCons<D>(prev: seq<D>, tail: seq<seq<D>>)
    requires |tail| > 0 && |prev| == 2 * |tail[0]|
    requires Halving(tail, |tail[0]|)
    ensures Halving([prev] + tail, |prev|)
  {
    var layers := [prev] + tail;
    forall k | 0 <= k < |layers| ensures |layers[k]| * Pow2(k) == |prev| {
      if k > 0 {
        assert layers[k] == tail[k - 1];
        DoublePow2(|tail[k - 1]|, k - 1);
      }
    }
  }

  lemma DoublePow2(a: nat, k: nat)
    ensures a * Pow2(k + 1) == 2 * (a * Pow2(k))
  {
    assert Pow2(k + 1) == 2 * Pow2(k);
  }

  /** Each layer after the first is the next layer of the one before, with the group the
      reference definition injects at that length. */
  ghost predicate FollowsRef<L, D>(h: seq<L> -> D, c: (D, D) -> D, leaves: seq<Matrix<L>>, maxHeight: nat, layers: seq<seq<D>>) {
    forall k :: 1 <= k < |layers| ==>
      layers[k] == NextLayer(h, c, layers[k - 1], Injected(leaves, maxHeight, |layers[k - 1]|))
  }

  lemma {:induction false} RefLayersSteps<L, D>(h: seq<L> -> D, c: (D, D) -> D, leaves: seq<Matrix<L>>, maxHeight: nat, prev: seq<D>)
    requires |prev| >= 1
    ensures FollowsRef(h, c, leaves, maxHeight, [prev] + RefLayers(h, c, leaves, maxHeight, prev))
    decreases |prev|
  {
    if |prev| > 1 {
      var layers := [prev] + RefLayers(h, c, leaves, maxHeight, prev);
      var next := NextLayer(h, c, prev, Injected(leaves, maxHeight, |prev|));
      RefLayersSteps(h, c, leaves, maxHeight, next);
      var tail := [next] + RefLayers(h, c, leaves, maxHeight, next);
      assert FollowsRef(h, c, leaves, maxHeight, tail);
      assert layers == [prev] + tail;
      forall k | 1 <= k < |layers|
        ensures layers[k] == NextLayer(h, c, layers[k - 1], Injected(leaves, maxHeight, |layers[k - 1]|))
      {
        assert layers[k] == tail[k - 1];
        if k > 1 {
          assert layers[k - 1] == tail[k - 2];
          assert tail[k - 1] == NextLayer(h, c, tail[k - 2], Injected(leaves, maxHeight, |tail[k - 2]|));
        } else {
          assert layers[0] == prev && tail[0] == next;
        }
      }
    }
  }

  /** Taking the injected run off the front of `rest` re-establishes the invariant one layer down. */
  lemma RestAfterLayer<L>(leaves: seq<Matrix<L>>, maxHeight: nat, p: nat, rest: seq<Matrix<L>>)
    requires IsPowerOfTwo(p) && p > 1
    requires RestInvariant(leaves, maxHeight, p, rest)
    ensures RunLength(rest, p) <= |rest|
    ensures RestInvariant(leaves, maxHeight, p / 2, rest[RunLength(rest, p)..])
  {
    var n := RunLength(rest, p);
    RunOfSortedIsFilter(rest, p);
    SuffixOfSorted(rest, n);
    HeightsAfterRun(rest, n, p);
    forall q: nat | 1 <= q <= p / 2 ensures WithHeight(rest[n..], q) == Injected(leaves, maxHeight, q) {
      FilterAfterRun(rest, n, p, q);
    }
  }

  /** Below a run of the power of two `p`, every height is a power of two at most `p / 2`. */
  lemma HeightsAfterRun<L>(rest: seq<Matrix<L>>, n: nat, p: nat)
    requires IsPowerOfTwo(p) && AllHeightsPowerOfTwo(rest) && n <= |rest|
    requires forall k :: n <= k < |rest| ==> rest[k].Height() < p
    ensures forall k :: 0 <= k < |rest[n..]| ==> rest[n..][k].Height() <= p / 2
  {
    forall k | 0 <= k < |rest[n..]| ensures rest[n..][k].Height() <= p / 2 {
      assert rest[n..][k] == rest[n + k];
      SmallerPowerOfTwoAtMostHalf(rest[n + k].Height(), p);
    }
  }

  /** The sorted list is as long as the input, starts at the largest height, and holds only
      powers of two no larger than it. */
  lemma SortedLeaves<L>(leaves: seq<Matrix<L>>)
    requires |leaves| > 0 && AllHeightsPowerOfTwo(leaves)
    ensures var sorted := SortByHeightDesc(leaves);
      && |sorted| == |leaves|
      && sorted[0].Height() == MaxHeight(leaves)
      && AllHeightsPowerOfTwo(sorted)
      && forall k :: 0 <= k < |sorted| ==> sorted[k].Height() <= MaxHeight(leaves)
  {
    var sorted := SortByHeightDesc(leaves);
    SortedStartsWithMax(leaves);
    forall k | 0 <= k < |sorted| ensures sorted[k].Height() <= MaxHeight(leaves) && IsPowerOfTwo(sorted[k].Height()) {
      assert sorted[k] in multiset(leaves);
    }
  }

  /** The invariant holds for what is left once the tallest run has formed layer 0. */
  lemma InitialRest<L>(leaves: seq<Matrix<L>>)
    requires |leaves| > 0 && AllHeightsPowerOfTwo(leaves)
    ensures var sorted := SortByHeightDesc(leaves);
      var maxHeight := MaxHeight(leaves);
      && |sorted| == |leaves|
      && RunLength(sorted, maxHeight) <= |sorted|
      && sorted[..RunLength(sorted, maxHeight)] == WithHeight(leaves, maxHeight)
      && RestInvariant(leaves, maxHeight, maxHeight, sorted[RunLength(sorted, maxHeight)..])
  {
    var sorted := SortByHeightDesc(leaves);
    var maxHeight := MaxHeight(leaves);
    SortedLeaves(leaves);
    var n := RunLength(sorted, maxHeight);
    RunOfSortedIsFilter(sorted, maxHeight);
    SortIsStable(leaves, maxHeight);
    SuffixOfSorted(sorted, n);
    forall q: nat | 1 <= q <= maxHeight ensures WithHeight(sorted[n..], q) == Injected(leaves, maxHeight, q) {
      InitialRestFilter(leaves, q);
    }
  }

  lemma InitialRestFilter<L>(leaves: seq<Matrix<L>>, q: nat)
    requires |leaves| > 0 && AllHeightsPowerOfTwo(leaves)
    requires 1 <= q <= MaxHeight(leaves)
    ensures var sorted := SortByHeightDesc(leaves);
      var maxHeight := MaxHeight(leaves);
      && RunLength(sorted, maxHeight) <= |sorted|
      && WithHeight(sorted[RunLength(sorted, maxHeight)..], q) == Injected(leaves, maxHeight, q)
  {
    var sorted := SortByHeightDesc(leaves);
    var maxHeight := MaxHeight(leaves);
    SortedLeaves(leaves);
    RunOfSortedIsFilter(sorted, maxHeight);
    FilterAfterRun(sorted, RunLength(sorted, maxHeight), maxHeight, q);
    SortIsStable(leaves, q);
  }

  /** Once a leading run of height `top` is cut off a list whose other heights are below
      `top`, the filter for `q` is empty when `q` is `top` and unchanged otherwise. */
  lemma FilterAfterRun<L>(s: seq<Matrix<L>>, n: nat, top: nat, q: nat)
    requires n <= |s|
    requires forall k :: 0 <= k < n ==> s[k].Height() == top
    requires forall k :: n <= k < |s| ==> s[k].Height() < top
    ensures WithHeight(s[n..], q) == if q == top then [] else WithHeight(s, q)
  {
    var rest := s[n..];
    assert s == s[..n] + rest;
    WithHeightAppend(s[..n], rest, q);
    if q == top {
      assert forall k :: 0 <= k < |rest| ==> rest[k].Height() != q by {
        forall k | 0 <= k < |rest| ensures rest[k].Height() != q {
          assert rest[k] == s[n + k];
        }
      }
      WithHeightNone(rest, q);
    } else {
      WithHeightNone(s[..n], q);
    }
  }

  /** `New` builds layer 0 and then exactly the layers of the reference definition, which injects by height alone. */
  lemma NewIsRef<L, D>(h: seq<L> -> D, c: (D, D) -> D, leaves: seq<Matrix<L>>)
    requires |leaves| > 0 && AllHeightsPowerOfTwo(leaves)
    ensures IsPowerOfTwo(MaxHeight(leaves))
    ensures New(h, c, leaves).Success?
    ensures var maxHeight := MaxHeight(leaves);
      var first := LeafLayer(h, WithHeight(leaves, maxHeight), maxHeight);
      New(h, c, leaves).value.digestLayers == [first] + RefLayers(h, c, leaves, maxHeight, first)
  {
    var sorted := SortByHeightDesc(leaves);
    var maxHeight := MaxHeight(leaves);
    InitialRest(leaves);
    SortedLeaves(leaves);
    var k :| 0 <= k < |leaves| && leaves[k].Height() == maxHeight;
    var n := RunLength(sorted, maxHeight);
    var first := LeafLayer(h, WithHeight(leaves, maxHeight), maxHeight);
    assert New(h, c, leaves) == Success(MerkleTree(leaves, [first] + LayersFrom(h, c, first, sorted[n..])));
    LayersFromIsRef(h, c, leaves, maxHeight, first, sorted[n..]);
  }

  /** Every tree `New` builds has `log2(maxHeight) + 1` layers, layer `k` holds
      `maxHeight / 2^k` digests, and the last layer is the single root. */
  lemma NewLayerCount<L, D>(h: seq<L> -> D, c: (D, D) -> D, leaves: seq<Matrix<L>>)
    requires |leaves| > 0 && AllHeightsPowerOfTwo(leaves)
    ensures New(h, c, leaves).Success?
    ensures var layers := New(h, c, leaves).value.digestLayers;
      && |layers| == Log2(MaxHeight(leaves)) + 1
      && Halving(layers, MaxHeight(leaves))
      && |layers[|layers| - 1]| == 1
  {
    var maxHeight := MaxHeight(leaves);
    NewIsRef(h, c, leaves);
    var first := LeafLayer(h, WithHeight(leaves, maxHeight), maxHeight);
    RefLayersCount(h, c, leaves, maxHeight, first);
    RefLayersHalve(h, c, leaves, maxHeight, first);
  }

  /** Layer 0 of every tree `New` builds: entry `i` is the hash of row `i` of every matrix of
      the largest height, concatenated in input order. */
  lemma NewLeafLayer<L, D>(h: seq<L> -> D, c: (D, D) -> D, leaves: seq<Matrix<L>>)
    requires |leaves| > 0 && AllHeightsPowerOfTwo(leaves)
    ensures New(h, c, leaves).Success?
    ensures var layers := New(h, c, leaves).value.digestLayers;
      var maxHeight := MaxHeight(leaves);
      && |layers[0]| == maxHeight
      && forall i :: 0 <= i < maxHeight ==> layers[0][i] == h(ConcatRows(WithHeight(leaves, maxHeight), i))
  {
    NewIsRef(h, c, leaves);
  }

  /** Entry `i` of a layer compresses entries `2i` and `2i+1` of the layer before and, when
      `group` is not empty, compresses the hash of row `i` of `group` in as well. */
  ghost predicate CompressesPairs<L, D>(h: seq<L> -> D, c: (D, D) -> D, prev: seq<D>, next: seq<D>, group: seq<Matrix<L>>)
    requires AllAtLeast(group, |prev| / 2)
  {
    && |next| == |prev| / 2
    && forall i :: 0 <= i < |next| ==>
         next[i] == if |group| == 0 then c(prev[2 * i], prev[2 * i + 1])
                    else c(c(prev[2 * i], prev[2 * i + 1]), h(ConcatRows(group, i)))
  }

  /** Every later layer of a tree `New` builds compresses the layer before it, and injects
      exactly the matrices whose height equals the length of that layer, unless that length
      is the largest height (whose matrices already formed layer 0). */
  lemma NewLayerSteps<L, D>(h: seq<L> -> D, c: (D, D) -> D, leaves: seq<Matrix<L>>)
    requires |leaves| > 0 && AllHeightsPowerOfTwo(leaves)
    ensures New(h, c, leaves).Success?
    ensures var layers := New(h, c, leaves).value.digestLayers;
      forall k :: 1 <= k < |layers| ==>
        CompressesPairs(h, c, layers[k - 1], layers[k], Injected(leaves, MaxHeight(leaves), |layers[k - 1]|))
  {
    var maxHeight := MaxHeight(leaves);
    NewIsRef(h, c, leaves);
    var first := LeafLayer(h, WithHeight(leaves, maxHeight), maxHeight);
    RefLayersSteps(h, c, leaves, maxHeight, first);
    var layers := New(h, c, leaves).value.digestLayers;
    assert FollowsRef(h, c, leaves, maxHeight, layers);
    forall k | 1 <= k < |layers|
      ensures CompressesPairs(h, c, layers[k - 1], layers[k], Injected(leaves, maxHeight, |layers[k - 1]|))
    {
      NextLayerCompresses(h, c, layers[k - 1], Injected(leaves, maxHeight, |layers[k - 1]|));
    }
  }

  lemma NextLayerCompresses<L, D>(h: seq<L> -> D, c: (D, D) -> D, prev: seq<D>, group: seq<Matrix<L>>)
    requires AllAtLeast(group, |prev| / 2)
    ensures CompressesPairs(h, c, prev, NextLayer(h, c, prev, group), group)
  {
  }

  // ---------------------------------------------------------------------------
  // Which rows the tree reads
  // ---------------------------------------------------------------------------

  /** How many leading rows of a matrix of height `height` the construction reads: all of
      them for the tallest matrices, and only the first half for a matrix injected later
      (it is injected when the previous layer has `height` entries, but the layer it joins
      has `height / 2`). A height-1 matrix below the top therefore contributes no row. */
  function UsedRows(height: nat, maxHeight: nat): (n: nat)
    ensures n <= height
  {
    if height == maxHeight then height else height / 2
  }

  /** Same heights, and the same rows wherever the construction reads a row. */
  ghost predicate AgreeOnUsedRows<L>(a: seq<Matrix<L>>, b: seq<Matrix<L>>, maxHeight: nat) {
    && |a| == |b|
    && forall j :: 0 <= j < |a| ==>
         && a[j].Height() == b[j].Height()
         && forall i :: 0 <= i < UsedRows(a[j].Height(), maxHeight) ==> a[j].rows[i] == b[j].rows[i]
  }

  lemma {:induction false} AgreeKeepsHeights<L>(a: seq<Matrix<L>>, b: seq<Matrix<L>>, maxHeight: nat)
    requires AgreeOnUsedRows(a, b, maxHeight)
    ensures AllHeightsPowerOfTwo(a) ==> AllHeightsPowerOfTwo(b)
    ensures |a| > 0 ==> MaxHeight(a) == MaxHeight(b)
    decreases |a|
  {
    if |a| > 1 {
      AgreeKeepsHeights(a[1..], b[1..], maxHeight);
    }
  }

  /** Filtering two agreeing lists by one height gives lists whose rows agree on the rows
      the construction reads at that height. */
  lemma {:induction false} AgreeingFilters<L>(a: seq<Matrix<L>>, b: seq<Matrix<L>>, maxHeight: nat, q: nat, i: nat)
    requires AgreeOnUsedRows(a, b, maxHeight)
    requires i < UsedRows(q, maxHeight)
    ensures |WithHeight(a, q)| == |WithHeight(b, q)|
    ensures ConcatRows(WithHeight(a, q), i) == ConcatRows(WithHeight(b, q), i)
    decreases |a|
  {
    if |a| > 0 {
      AgreeingFilters(a[1..], b[1..], maxHeight, q, i);
      assert AgreeOnUsedRows(a[1..], b[1..], maxHeight) by {
        forall j | 0 <= j < |a| - 1 ensures a[1..][j] == a[j + 1] && b[1..][j] == b[j + 1] {}
      }
      if a[0].Height() == q {
        var wa, wb := WithHeight(a, q), WithHeight(b, q);
        assert wa == [a[0]] + WithHeight(a[1..], q);
        assert wb == [b[0]] + WithHeight(b[1..], q);
        assert wa[1..] == WithHeight(a[1..], q) && wb[1..] == WithHeight(b[1..], q);
        assert a[0].rows[i] == b[0].rows[i];
        assert ConcatRows(wa, i) == a[0].rows[i] + ConcatRows(wa[1..], i);
        assert ConcatRows(wb, i) == b[0].rows[i] + ConcatRows(wb[1..], i);
      } else {
        assert WithHeight(a, q) == WithHeight(a[1..], q);
        assert WithHeight(b, q) == WithHeight(b[1..], q);
      }
    }
  }

  lemma {:induction false} RefLayersAgree<L, D>(h: seq<L> -> D, c: (D, D) -> D, a: seq<Matrix<L>>, b: seq<Matrix<L>>,
                                                maxHeight: nat, prev: seq<D>)
    requires AgreeOnUsedRows(a, b, maxHeight)
    requires |prev| >= 1
    ensures RefLayers(h, c, a, maxHeight, prev) == RefLayers(h, c, b, maxHeight, prev)
    decreases |prev|
  {
    if |prev| > 1 {
      var p := |prev|;
      var next := NextLayer(h, c, prev, Injected(a, maxHeight, p));
      if p != maxHeight {
        if p / 2 > 0 {
          AgreeingFilters(a, b, maxHeight, p, 0);
        }
        forall i | 0 <= i < p / 2 ensures HashRow(h, WithHeight(a, p), i) == HashRow(h, WithHeight(b, p), i) {
          AgreeingFilters(a, b, maxHeight, p, i);
        }
      }
      assert next == NextLayer(h, c, prev, Injected(b, maxHeight, p));
      RefLayersAgree(h, c, a, b, maxHeight, next);
    }
  }

  /** Rows outside `0..UsedRows(height)` never reach the tree: two lists that agree on the used
      rows build identical digest layers (and so the same root). In particular only rows
      `0..h/2` of an injected matrix of height `h` matter. */
  lemma OnlyUsedRowsMatter<L, D>(h: seq<L> -> D, c: (D, D) -> D, a: seq<Matrix<L>>, b: seq<Matrix<L>>)
    requires |a| > 0 && AllHeightsPowerOfTwo(a)
    requires AgreeOnUsedRows(a, b, MaxHeight(a))
    ensures New(h, c, a).Success? && New(h, c, b).Success?
    ensures New(h, c, a).value.digestLayers == New(h, c, b).value.digestLayers
  {
    var maxHeight := MaxHeight(a);
    AgreeKeepsHeights(a, b, maxHeight);
    NewIsRef(h, c, a);
    NewIsRef(h, c, b);
    var first := LeafLayer(h, WithHeight(a, maxHeight), maxHeight);
    AgreeingLeafLayers(h, a, b, maxHeight);
    RefLayersAgree(h, c, a, b, maxHeight, first);
  }

  lemma AgreeingLeafLayers<L, D>(h: seq<L> -> D, a: seq<Matrix<L>>, b: seq<Matrix<L>>, maxHeight: nat)
    requires AgreeOnUsedRows(a, b, maxHeight)
    ensures LeafLayer(h, WithHeight(a, maxHeight), maxHeight) == LeafLayer(h, WithHeight(b, maxHeight), maxHeight)
  {
    var la, lb := LeafLayer(h, WithHeight(a, maxHeight), maxHeight), LeafLayer(h, WithHeight(b, maxHeight), maxHeight);
    forall i | 0 <= i < maxHeight ensures la[i] == lb[i] {
      AgreeingFilters(a, b, maxHeight, maxHeight, i);
    }
  }

  /** When the tallest matrix has more than one row, the contents of height-1 matrices never
      reach the tree: the loop stops at the layer of length 1 before it would inject them. */
  lemma HeightOneMatricesIgnored<L, D>(h: seq<L> -> D, c: (D, D) -> D, a: seq<Matrix<L>>, b: seq<Matrix<L>>)
    requires |a| > 0 && AllHeightsPowerOfTwo(a) && MaxHeight(a) > 1
    requires |a| == |b|
    requires forall j :: 0 <= j < |a| ==> a[j].Height() == b[j].Height()
    requires forall j :: 0 <= j < |a| && a[j].Height() != 1 ==> a[j] == b[j]
    ensures New(h, c, a).Success? && New(h, c, b).Success?
    ensures New(h, c, a).value.digestLayers == New(h, c, b).value.digestLayers
  {
    OnlyUsedRowsMatter(h, c, a, b);
  }

  /** The rows at positions whose matrix has height `q`, concatenated in input order. */
  function RowsOfHeight<L>(values: seq<seq<L>>, leaves: seq<Matrix<L>>, q: nat): seq<L>
    requires |values| == |leaves|
  {
    if |values| == 0 then []
    else (if leaves[0].Height() == q then values[0] else []) + RowsOfHeight(values[1..], leaves[1..], q)
  }

  lemma {:induction false} RowsOfHeightIsConcat<L>(values: seq<seq<L>>, leaves: seq<Matrix<L>>, q: nat, row: nat)
    requires |values| == |leaves| && row < q
    requires forall k :: 0 <= k < |leaves| ==> leaves[k].Height() == q ==> values[k] == leaves[k].rows[row]
    ensures RowsOfHeight(values, leaves, q) == ConcatRows(WithHeight(leaves, q), row)
    decreases |values|
  {
    if |values| > 0 {
      RowsOfHeightIsConcat(values[1..], leaves[1..], q, row);
      var w := WithHeight(leaves, q);
      if leaves[0].Height() == q {
        assert w == [leaves[0]] + WithHeight(leaves[1..], q);
        assert w[1..] == WithHeight(leaves[1..], q);
        assert ConcatRows(w, row) == leaves[0].rows[row] + ConcatRows(w[1..], row);
      } else {
        assert w == WithHeight(leaves[1..], q);
      }
    }
  }

  /** What `open_batch(row)` returns for the tallest matrices is exactly what leaf `row` of
      layer 0 hashes. */
  lemma OpenBatchMatchesLeaf<L, D>(h: seq<L> -> D, c: (D, D) -> D, leaves: seq<Matrix<L>>, row: nat)
    requires |leaves| > 0 && AllHeightsPowerOfTwo(leaves)
    requires AllAtLeast(leaves, row + 1)
    ensures New(h, c, leaves).Success?
    ensures var tree := New(h, c, leaves).value;
      var batch := OpenBatch(row, tree);
      && row < |tree.digestLayers[0]|
      && tree.digestLayers[0][row] == h(RowsOfHeight(batch.values, tree.leaves, MaxHeight(leaves)))
  {
    NewLeafLayer(h, c, leaves);
    var tree := New(h, c, leaves).value;
    var k :| 0 <= k < |leaves| && leaves[k].Height() == MaxHeight(leaves);
    RowsOfHeightIsConcat(OpenBatch(row, tree).values, leaves, MaxHeight(leaves), row);
  }
}
