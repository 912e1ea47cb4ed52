/** The FRI prover of fri/src/prover.rs: the Horner row reduction that batches many columns
    into one codeword, the even/odd fold its doc comment describes, and the commit phase up
    to the point where the source stops (`todo!()`).

    Field elements are integers: every statement below is an identity of commutative rings,
    so it holds in the prime field and its extensions as well. The challenges `alpha` and
    `beta` are parameters instead of transcript draws. */
module FriProver {
  import opened Wrappers
  import opened Matrices
  import MerkleTrees

  // ---------------------------------------------------------------------------
  // Horner reduction (`reduce_matrices`)
  // ---------------------------------------------------------------------------

  /** The left fold `acc <- acc * alpha + col` over `cols`, first column first. */
  function HornerRow(acc: int, cols: seq<int>, alpha: int): int
    decreases |cols|
  {
    if |cols| == 0 then acc else HornerRow(acc * alpha + cols[0], cols[1..], alpha)
  }

  /** The two nested loops of `reduce_matrices` for one row: matrix by matrix, then column by
      column within row `r` of that matrix. */
  function ReduceRow(acc: int, ms: seq<Matrix<int>>, r: nat, alpha: int): int
    requires AllAtLeast(ms, r + 1)
    decreases |ms|
  {
    if |ms| == 0 then acc else ReduceRow(HornerRow(acc, ms[0].rows[r], alpha), ms[1..], r, alpha)
  }

  /** `reduce_matrices(height, init, matrices, alpha)`: one value per row `r < height`,
      starting from `init[r]` and running over every column of every matrix in order. The
      source indexes `init[r]` and reads row `r` of each matrix, so both must be long enough. */
  function ReduceMatrices(height: nat, init: seq<int>, ms: seq<Matrix<int>>, alpha: int): (out: seq<int>)
    requires height <= |init|
    requires AllAtLeast(ms, height)
    ensures |out| == height
    ensures forall r :: 0 <= r < height ==> out[r] == HornerRow(init[r], ConcatRows(ms, r), alpha)
  {
    ReduceRowsAreHorner(height, init, ms, alpha);
    seq(height, r requires 0 <= r < height => ReduceRow(init[r], ms, r, alpha))
  }

  /** Folding over two column lists is folding over the first, then continuing over the second. */
  lemma {:induction false} HornerAppend(acc: int, a: seq<int>, b: seq<int>, alpha: int)
    ensures HornerRow(acc, a + b, alpha) == HornerRow(HornerRow(acc, a, alpha), b, alpha)
    decreases |a|
  {
    if |a| > 0 {
      assert (a + b)[1..] == a[1..] + b;
      HornerAppend(acc * alpha + a[0], a[1..], b, alpha);
    } else {
      assert a + b == b;
    }
  }

  /** The nested loops equal one Horner fold over row `r` of every matrix, concatenated. */
  lemma {:induction false} ReduceRowIsHorner(acc: int, ms: seq<Matrix<int>>, r: nat, alpha: int)
    requires AllAtLeast(ms, r + 1)
    ensures ReduceRow(acc, ms, r, alpha) == HornerRow(acc, ConcatRows(ms, r), alpha)
    decreases |ms|
  {
    if |ms| > 0 {
      ReduceRowIsHorner(HornerRow(acc, ms[0].rows[r], alpha), ms[1..], r, alpha);
      HornerAppend(acc, ms[0].rows[r], ConcatRows(ms[1..], r), alpha);
    }
  }

  lemma ReduceRowsAreHorner(height: nat, init: seq<int>, ms: seq<Matrix<int>>, alpha: int)
    requires height <= |init|
    requires AllAtLeast(ms, height)
    ensures forall r :: 0 <= r < height ==> ReduceRow(init[r], ms, r, alpha) == HornerRow(init[r], ConcatRows(ms, r), alpha)
  {
    forall r | 0 <= r < height ensures ReduceRow(init[r], ms, r, alpha) == HornerRow(init[r], ConcatRows(ms, r), alpha) {
      ReduceRowIsHorner(init[r], ms, r, alpha);
    }
  }

  /** With no matrices, the reduction is the first `height` entries of `init`. */
  lemma ReduceNoMatrices(height: nat, init: seq<int>, alpha: int)
    requires height <= |init|
    ensures ReduceMatrices(height, init, [], alpha) == init[..height]
  {
    var out := ReduceMatrices(height, init, [], alpha);
    forall r | 0 <= r < height ensures out[r] == init[r] {
      assert ConcatRows<int>([], r) == [];
    }
  }

  /** Continuation: reducing `ms1 + ms2` from `init` is reducing `ms2` from the reduction of
      `ms1`. This is the running accumulation `commit_phase` relies on. */
  lemma ReduceContinuation(height: nat, init: seq<int>, ms1: seq<Matrix<int>>, ms2: seq<Matrix<int>>, alpha: int)
    requires height <= |init|
    requires AllAtLeast(ms1, height) && AllAtLeast(ms2, height)
    ensures AllAtLeast(ms1 + ms2, height)
    ensures ReduceMatrices(height, ReduceMatrices(height, init, ms1, alpha), ms2, alpha)
         == ReduceMatrices(height, init, ms1 + ms2, alpha)
  {
    var mid := ReduceMatrices(height, init, ms1, alpha);
    var lhs := ReduceMatrices(height, mid, ms2, alpha);
    var rhs := ReduceMatrices(height, init, ms1 + ms2, alpha);
    forall r | 0 <= r < height ensures lhs[r] == rhs[r] {
      ConcatRowsAppend(ms1, ms2, r);
      HornerAppend(init[r], ConcatRows(ms1, r), ConcatRows(ms2, r), alpha);
    }
  }

  /** Row `r` of a reduction depends on nothing but `init[r]` and row `r` of the matrices:
      a shorter reduction is a prefix of a longer one, and only `init[..height]` is read. */
  lemma ReducePrefix(height: nat, shorter: nat, init: seq<int>, init': seq<int>, ms: seq<Matrix<int>>, alpha: int)
    requires shorter <= height <= |init|
    requires shorter <= |init'| && init[..shorter] == init'[..shorter]
    requires AllAtLeast(ms, height)
    ensures ReduceMatrices(height, init, ms, alpha)[..shorter] == ReduceMatrices(shorter, init', ms, alpha)
  {
    var long := ReduceMatrices(height, init, ms, alpha);
    var short := ReduceMatrices(shorter, init', ms, alpha);
    forall r | 0 <= r < shorter ensures long[r] == short[r] {
      assert init[r] == init[..shorter][r] == init'[r];
    }
  }

  function Pow(x: int, n: nat): int {
    if n == 0 then 1 else x * Pow(x, n - 1)
  }

  /** `sum over k of cols[k] * alpha^(n-1-k)`, with `n = |cols|`. */
  function PowerSum(cols: seq<int>, alpha: int): int
    decreases |cols|
  {
    if |cols| == 0 then 0 else cols[0] * Pow(alpha, |cols| - 1) + PowerSum(cols[1..], alpha)
  }

  /** Closed form of the fold: `acc * alpha^n + sum over k of cols[k] * alpha^(n-1-k)`. */
  lemma {:induction false} HornerClosedForm(acc: int, cols: seq<int>, alpha: int)
    ensures HornerRow(acc, cols, alpha) == acc * Pow(alpha, |cols|) + PowerSum(cols, alpha)
    decreases |cols|
  {
    if |cols| > 0 {
      var n := |cols|;
      var p := Pow(alpha, n - 1);
      HornerClosedForm(acc * alpha + cols[0], cols[1..], alpha);
      assert (acc * alpha + cols[0]) * p == acc * (alpha * p) + cols[0] * p;
    }
  }

  /** Row `r` of the reduction is `init[r] * alpha^n + sum of col_k * alpha^(n-1-k)`, where
      the columns are row `r` of every matrix in order and `n` is their total number. */
  lemma ReduceClosedForm(height: nat, init: seq<int>, ms: seq<Matrix<int>>, alpha: int, r: nat)
    requires height <= |init|
    requires AllAtLeast(ms, height)
    requires r < height
    ensures var cols := ConcatRows(ms, r);
      ReduceMatrices(height, init, ms, alpha)[r] == init[r] * Pow(alpha, |cols|) + PowerSum(cols, alpha)
  {
    HornerClosedForm(init[r], ConcatRows(ms, r), alpha);
  }

  // ---------------------------------------------------------------------------
  // Even/odd folding (`fold_even_odd`, specified by its doc comment only)
  // ---------------------------------------------------------------------------

  /** `p(x) = sum of p[i] * x^i`. */
  function Eval(p: seq<int>, x: int): int
    decreases |p|
  {
    if |p| == 0 then 0 else p[0] + x * Eval(p[1..], x)
  }

  /** The coefficients of `p_even`: `p[0], p[2], p[4], ...`. */
  function Evens(p: seq<int>): (e: seq<int>)
    decreases |p|
  {
    if |p| == 0 then [] else [p[0]] + Odds(p[1..])
  }

  /** The coefficients of `p_odd`: `p[1], p[3], p[5], ...`. */
  function Odds(p: seq<int>): (o: seq<int>)
    decreases |p|
  {
    if |p| == 0 then [] else Evens(p[1..])
  }

  /** `fold_even_odd(p, beta)`: `p_even + beta * p_odd` on coefficients. An odd length leaves
      a last even coefficient without an odd partner. */
  function FoldEvenOdd(p: seq<int>, beta: int): (r: seq<int>)
    ensures |r| == (|p| + 1) / 2
    ensures forall i :: 0 <= i < |r| ==>
      r[i] == p[2 * i] + beta * (if 2 * i + 1 < |p| then p[2 * i + 1] else 0)
    decreases |p|
  {
    if |p| == 0 then []
    else if |p| == 1 then [p[0]]
    else [p[0] + beta * p[1]] + FoldEvenOdd(p[2..], beta)
  }

  /** The decomposition in the doc comment: `p(x) = p_even(x^2) + x * p_odd(x^2)`. */
  lemma {:induction false} EvenOddSplit(p: seq<int>, x: int)
    ensures Eval(p, x) == Eval(Evens(p), x * x) + x * Eval(Odds(p), x * x)
    decreases |p|
  {
    if |p| > 0 {
      var q := p[1..];
      EvenOddSplit(q, x);
      var e := Eval(Evens(q), x * x);
      var o := Eval(Odds(q), x * x);
      assert Evens(p) == [p[0]] + Odds(q);
      assert ([p[0]] + Odds(q))[1..] == Odds(q);
      assert Eval(Evens(p), x * x) == p[0] + (x * x) * o;
      SplitAlgebra(x, e, o);
    }
  }

  /** The ring step of `EvenOddSplit`, kept apart so the nonlinear fact is proved alone. */
  lemma SplitAlgebra(x: int, e: int, o: int)
    ensures x * (e + x * o) == x * e + (x * x) * o
  {
  }

  /** The fold evaluates to `p_even(y) + beta * p_odd(y)` at every point `y`. */
  lemma {:induction false} FoldEvaluates(p: seq<int>, beta: int, y: int)
    ensures Eval(FoldEvenOdd(p, beta), y) == Eval(Evens(p), y) + beta * Eval(Odds(p), y)
    decreases |p|
  {
    if |p| == 1 {
      assert Evens(p) == [p[0]] + Odds(p[1..]);
      assert Odds(p) == Evens(p[1..]) == [];
    } else if |p| >= 2 {
      var rest := p[2..];
      FoldEvaluates(rest, beta, y);
      assert p[1..][1..] == rest;
      assert Evens(p) == [p[0]] + Evens(rest);
      assert Odds(p) == [p[1]] + Odds(rest);
      assert ([p[0]] + Evens(rest))[1..] == Evens(rest);
      assert ([p[1]] + Odds(rest))[1..] == Odds(rest);
      assert ([p[0] + beta * p[1]] + FoldEvenOdd(rest, beta))[1..] == FoldEvenOdd(rest, beta);
      assert Eval(FoldEvenOdd(p, beta), y) == (p[0] + beta * p[1]) + y * Eval(FoldEvenOdd(rest, beta), y);
      assert Eval(Evens(p), y) == p[0] + y * Eval(Evens(rest), y);
      assert Eval(Odds(p), y) == p[1] + y * Eval(Odds(rest), y);
      FoldStepAlgebra(p[0], p[1], beta, y, Eval(Evens(rest), y), Eval(Odds(rest), y));
    }
  }

  /** The ring identity behind one step of `FoldEvaluates`. */
  lemma FoldStepAlgebra(a: int, b: int, beta: int, y: int, e: int, o: int)
    ensures (a + beta * b) + y * (e + beta * o) == (a + y * e) + beta * (b + y * o)
  {
    assert y * (e + beta * o) == y * e + beta * (y * o);
    assert beta * (b + y * o) == beta * b + beta * (y * o);
  }

  /** With `beta = 0` the fold keeps the even coefficients. */
  lemma {:induction false} FoldWithZeroBeta(p: seq<int>)
    ensures FoldEvenOdd(p, 0) == Evens(p)
    decreases |p|
  {
    if |p| >= 2 {
      FoldWithZeroBeta(p[2..]);
      assert p[1..][1..] == p[2..];
      assert Evens(p) == [p[0]] + Evens(p[2..]);
    } else if |p| == 1 {
      assert Evens(p) == [p[0]] + Odds(p[1..]);
    }
  }

  /** The fold seen through evaluations at a pair `x, -x` of the domain:
      `2x * fold(p, beta)(x^2) == (x + beta) * p(x) + (x - beta) * p(-x)`. */
  lemma FoldAtSquare(p: seq<int>, beta: int, x: int)
    ensures 2 * x * Eval(FoldEvenOdd(p, beta), x * x)
         == (x + beta) * Eval(p, x) + (x - beta) * Eval(p, -x)
  {
    EvenOddSplit(p, x);
    EvenOddSplit(p, -x);
    FoldEvaluates(p, beta, x * x);
    assert (-x) * (-x) == x * x;
    PairCombination(x, beta, Eval(Evens(p), x * x), Eval(Odds(p), x * x));
  }

  /** The ring identity behind `FoldAtSquare`. */
  lemma PairCombination(x: int, beta: int, e: int, o: int)
    ensures (x + beta) * (e + x * o) + (x - beta) * (e + (-x) * o) == 2 * x * (e + beta * o)
  {
    assert (x + beta) * (e + x * o) == x * e + x * (x * o) + beta * e + beta * (x * o);
    assert (x - beta) * (e + (-x) * o) == x * e - x * (x * o) - beta * e + beta * (x * o);
    assert 2 * x * (e + beta * o) == 2 * (x * e) + 2 * (beta * (x * o));
  }

  // ---------------------------------------------------------------------------
  // The commit phase (`commit_phase`, up to its `todo!()`)
  // ---------------------------------------------------------------------------

  /** `expect("No matrices?")`. */
  datatype CommitPhaseError = NoMatrices

  /** What the commit phase holds when the source reaches `todo!()`: the codewords pushed to
      `committed`, and the working codeword `current`. */
  datatype CommitPhaseState = CommitPhaseState(committed: seq<seq<int>>, current: seq<int>)

  /** `codewords.iter().flat_map(|data| M::get_matrices(data))`. */
  function AllMatrices<D>(codewords: seq<MerkleTrees.MerkleTree<int, D>>): seq<Matrix<int>> {
    if |codewords| == 0 then [] else MerkleTrees.GetMatrices(codewords[0]) + AllMatrices(codewords[1..])
  }

  function Zeros(n: nat): (z: seq<int>)
    ensures |z| == n
    ensures forall i :: 0 <= i < n ==> z[i] == 0
  {
    seq(n, _ => 0)
  }

  /** The groups of the matrices sorted by descending height, as `group_by` yields them. */
  function HeightGroups(ms: seq<Matrix<int>>): (gs: seq<Group<int>>)
    ensures GroupsWellFormed(gs) && StrictlyDescending(gs)
    ensures |gs| == 0 <==> |ms| == 0
  {
    var sorted := SortByHeightDesc(ms);
    GroupsOfSortedDescend(sorted);
    assert |sorted| == |ms| by {
      assert |multiset(sorted)| == |multiset(ms)|;
    }
    GroupByHeight(sorted)
  }

  /** The `for (height, matrices)` loop from group `j` on. The source's inner fold loop runs
      `while current.len() < height`; the requires make that guard false at every group (the
      heights strictly descend below `|current|`), so no fold ever happens and the group is
      reduced into the first `height` entries of `current`. */
  function ReduceGroups(groups: seq<Group<int>>, j: nat, committed: seq<seq<int>>, current: seq<int>, alpha: int): (st: CommitPhaseState)
    requires GroupsWellFormed(groups) && StrictlyDescending(groups)
    requires 1 <= j <= |groups|
    requires j < |groups| ==> groups[j].height <= |current|
    ensures |st.committed| == |committed| + |groups| - j
    ensures st.committed[..|committed|] == committed
    decreases |groups| - j
  {
    if j == |groups| then CommitPhaseState(committed, current)
    else
      var height := groups[j].height;
      var next := ReduceMatrices(height, current, groups[j].matrices, alpha);
      var st := ReduceGroups(groups, j + 1, committed + [current], next, alpha);
      assert st.committed[..|committed| + 1][..|committed|] == st.committed[..|committed|];
      st
  }

  /** `commit_phase`, as far as the source goes: group the matrices by descending height, reduce
      the tallest group from the zero codeword, then for every further group push `current`
      and reduce the group into it. Returns the state at `todo!()`. */
  function CommitPhase<D>(codewords: seq<MerkleTrees.MerkleTree<int, D>>, alpha: int): (r: Result<CommitPhaseState, CommitPhaseError>)
    ensures r.Failure? <==> |AllMatrices(codewords)| == 0
    ensures r.Success? ==> |r.value.committed| == |HeightGroups(AllMatrices(codewords))|
  {
    var groups := HeightGroups(AllMatrices(codewords));
    if |groups| == 0 then Failure(NoMatrices) else Success(CommitGroups(groups, alpha))
  }

  /** The body of `commit_phase` once the groups are known: the first group seeds `current`. */
  function CommitGroups(groups: seq<Group<int>>, alpha: int): (st: CommitPhaseState)
    requires GroupsWellFormed(groups) && StrictlyDescending(groups)
    requires |groups| > 0
    ensures |st.committed| == |groups|
  {
    var maxHeight := groups[0].height;
    var current := ReduceMatrices(maxHeight, Zeros(maxHeight), groups[0].matrices, alpha);
    ReduceGroups(groups, 1, [current], current, alpha)
  }

  /** Every matrix of the first `j + 1` groups has at least `groups[j].height` rows. */
  lemma FlattenPrefixAtLeast(groups: seq<Group<int>>, j: nat)
    requires GroupsWellFormed(groups) && StrictlyDescending(groups)
    requires j < |groups|
    ensures AllAtLeast(Flatten(groups[..j + 1]), groups[j].height)
  {
    FlattenAtLeast(groups[..j + 1], groups[j].height);
  }

  lemma {:induction false} FlattenAtLeast(gs: seq<Group<int>>, b: nat)
    requires GroupsWellFormed(gs)
    requires forall t :: 0 <= t < |gs| ==> b <= gs[t].height
    ensures AllAtLeast(Flatten(gs), b)
    decreases |gs|
  {
    if |gs| > 0 {
      FlattenAtLeast(gs[1..], b);
      var f := Flatten(gs);
      assert f == gs[0].matrices + Flatten(gs[1..]);
      forall k | 0 <= k < |f| ensures b <= f[k].Height() {
        if k >= |gs[0].matrices| {
          assert f[k] == Flatten(gs[1..])[k - |gs[0].matrices|];
        }
      }
    }
  }

  /** The running accumulation after group `j`: every matrix of groups `0..j`, in canonical
      order, reduced from the zero codeword, over the first `groups[j].height` rows. */
  function Accumulated(groups: seq<Group<int>>, j: nat, alpha: int): (acc: seq<int>)
    requires GroupsWellFormed(groups) && StrictlyDescending(groups)
    requires j < |groups|
    ensures |acc| == groups[j].height
  {
    FlattenPrefixAtLeast(groups, j);
    ReduceMatrices(groups[j].height, Zeros(groups[0].height), Flatten(groups[..j + 1]), alpha)
  }

  /** Reducing group `j` into the accumulation after group `j - 1` gives the accumulation
      after group `j`. */
  lemma AccumulateStep(groups: seq<Group<int>>, j: nat, alpha: int)
    requires GroupsWellFormed(groups) && StrictlyDescending(groups)
    requires 1 <= j < |groups|
    ensures ReduceMatrices(groups[j].height, Accumulated(groups, j - 1, alpha), groups[j].matrices, alpha)
         == Accumulated(groups, j, alpha)
  {
    var h, h' := groups[j].height, groups[j - 1].height;
    var z := Zeros(groups[0].height);
    var before := Flatten(groups[..j]);
    FlattenPrefixAtLeast(groups, j - 1);
    FlattenPrefixAtLeast(groups, j);
    assert groups[..j + 1] == groups[..j] + [groups[j]];
    FlattenAppend(groups[..j], [groups[j]]);
    assert Flatten([groups[j]]) == groups[j].matrices;
    assert groups[..j - 1 + 1] == groups[..j];
    assert AllAtLeast(before, h) by {
      FlattenAtLeast(groups[..j], h);
    }
    var prev := ReduceMatrices(h', z, before, alpha);
    ReducePrefix(h', h, z, z, before, alpha);
    ReducePrefix(h, h, prev, ReduceMatrices(h, z, before, alpha), groups[j].matrices, alpha);
    ReduceContinuation(h, z, before, groups[j].matrices, alpha);
  }

  lemma {:induction false} ReduceGroupsChain(groups: seq<Group<int>>, j: nat, committed: seq<seq<int>>, current: seq<int>, alpha: int)
    requires GroupsWellFormed(groups) && StrictlyDescending(groups)
    requires 1 <= j <= |groups|
    requires current == Accumulated(groups, j - 1, alpha)
    ensures j < |groups| ==> groups[j].height <= |current|
    ensures var st := ReduceGroups(groups, j, committed, current, alpha);
      && (forall k :: |committed| <= k < |st.committed| ==> st.committed[k] == Accumulated(groups, k - |committed| + j - 1, alpha))
      && st.current == Accumulated(groups, |groups| - 1, alpha)
    decreases |groups| - j
  {
    if j < |groups| {
      var next := ReduceMatrices(groups[j].height, current, groups[j].matrices, alpha);
      AccumulateStep(groups, j, alpha);
      ReduceGroupsChain(groups, j + 1, committed + [current], next, alpha);
      var st := ReduceGroups(groups, j, committed, current, alpha);
      assert st == ReduceGroups(groups, j + 1, committed + [current], next, alpha);
      assert st.committed[..|committed| + 1] == committed + [current];
      assert st.committed[|committed|] == (committed + [current])[|committed|];
    }
  }

  /** The commit phase as written: one committed codeword per distinct height, in descending
      order of height. The first is the tallest group reduced from zero; entry `j >= 1` is the
      running accumulation after group `j - 1` (so entries 0 and 1 coincide), which is longer
      than group `j`, so the fold loop's guard `current.len() < height` never holds. The final
      `current` is every matrix, in canonical order, reduced over the rows of the smallest height. */
  lemma CommitGroupsChain(groups: seq<Group<int>>, alpha: int)
    requires GroupsWellFormed(groups) && StrictlyDescending(groups)
    requires |groups| > 0
    ensures var st := CommitGroups(groups, alpha);
      && st.committed[0] == Accumulated(groups, 0, alpha)
      && (forall j :: 1 <= j < |groups| ==> st.committed[j] == Accumulated(groups, j - 1, alpha))
      && (forall j :: 1 <= j < |groups| ==> groups[j].height < |st.committed[j]|)
      && st.current == Accumulated(groups, |groups| - 1, alpha)
  {
    var maxHeight := groups[0].height;
    var current := ReduceMatrices(maxHeight, Zeros(maxHeight), groups[0].matrices, alpha);
    assert groups[..1] == [groups[0]];
    assert Flatten([groups[0]]) == groups[0].matrices;
    assert current == Accumulated(groups, 0, alpha);
    ReduceGroupsChain(groups, 1, [current], current, alpha);
    var st := CommitGroups(groups, alpha);
    assert st.committed[..1] == [current];
    forall j | 1 <= j < |groups| ensures groups[j].height < |st.committed[j]| {
      assert st.committed[j] == Accumulated(groups, j - 1, alpha);
    }
  }

  /** `commit_phase` on the codewords: its state is the chain above over the height groups. */
  lemma CommitPhaseChain<D>(codewords: seq<MerkleTrees.MerkleTree<int, D>>, alpha: int)
    requires |AllMatrices(codewords)| > 0
    ensures var groups := HeightGroups(AllMatrices(codewords));
      && CommitPhase(codewords, alpha) == Success(CommitGroups(groups, alpha))
      && var st := CommitGroups(groups, alpha);
      && st.committed[0] == Accumulated(groups, 0, alpha)
      && (forall j :: 1 <= j < |groups| ==> st.committed[j] == Accumulated(groups, j - 1, alpha))
      && (forall j :: 1 <= j < |groups| ==> groups[j].height < |st.committed[j]|)
      && st.current == Accumulated(groups, |groups| - 1, alpha)
  {
    CommitGroupsChain(HeightGroups(AllMatrices(codewords)), alpha);
  }

  /** The first working codeword is every matrix of the largest height, in input order,
      reduced from the zero vector of that height. */
  lemma CommitPhaseFirst<D>(codewords: seq<MerkleTrees.MerkleTree<int, D>>, alpha: int)
    requires |AllMatrices(codewords)| > 0
    ensures var ms := AllMatrices(codewords);
      var maxHeight := MaxHeight(ms);
      && AllAtLeast(WithHeight(ms, maxHeight), maxHeight)
      && CommitPhase(codewords, alpha).value.committed[0]
         == ReduceMatrices(maxHeight, Zeros(maxHeight), WithHeight(ms, maxHeight), alpha)
  {
    var ms := AllMatrices(codewords);
    var groups := HeightGroups(ms);
    SortedStartsWithMax(ms);
    assert groups[0].height == MaxHeight(ms);
    HeightGroupIsClass(ms, 0);
    CommitPhaseChain(codewords, alpha);
    assert groups[..1] == [groups[0]];
    assert Flatten([groups[0]]) == groups[0].matrices;
  }

  /** The first two committed codewords are the same vector: `committed` starts with `current`,
      and the first loop iteration pushes it again unchanged, since no fold runs. */
  lemma CommittedRepeatsFirst(groups: seq<Group<int>>, alpha: int)
    requires GroupsWellFormed(groups) && StrictlyDescending(groups)
    requires |groups| >= 2
    ensures CommitGroups(groups, alpha).committed[1] == CommitGroups(groups, alpha).committed[0]
  {
    CommitGroupsChain(groups, alpha);
  }

  /** The groups `commit_phase` iterates over are the height classes of the input, in input
      order within each class, and every height of the input has its group. */
  lemma HeightGroupsAreClasses(ms: seq<Matrix<int>>)
    ensures var groups := HeightGroups(ms);
      && (forall j :: 0 <= j < |groups| ==> groups[j].matrices == WithHeight(ms, groups[j].height))
      && (forall k :: 0 <= k < |ms| ==> exists j :: 0 <= j < |groups| && groups[j].height == ms[k].Height())
  {
    var groups := HeightGroups(ms);
    forall j | 0 <= j < |groups| ensures groups[j].matrices == WithHeight(ms, groups[j].height) {
      HeightGroupIsClass(ms, j);
    }
    forall k | 0 <= k < |ms| ensures exists j :: 0 <= j < |groups| && groups[j].height == ms[k].Height() {
      HeightOfInputHasGroup(ms, k);
    }
  }

  lemma HeightGroupIsClass(ms: seq<Matrix<int>>, j: nat)
    requires j < |HeightGroups(ms)|
    ensures HeightGroups(ms)[j].matrices == WithHeight(ms, HeightGroups(ms)[j].height)
  {
    var sorted := SortByHeightDesc(ms);
    assert HeightGroups(ms) == GroupByHeight(sorted);
    GroupIsFilter(sorted, j);
    SortIsStable(ms, HeightGroups(ms)[j].height);
  }

  lemma HeightOfInputHasGroup(ms: seq<Matrix<int>>, k: nat)
    requires k < |ms|
    ensures exists j :: 0 <= j < |HeightGroups(ms)| && HeightGroups(ms)[j].height == ms[k].Height()
  {
    var sorted := SortByHeightDesc(ms);
    assert HeightGroups(ms) == GroupByHeight(sorted);
    assert ms[k] in multiset(sorted);
    var k' :| 0 <= k' < |sorted| && sorted[k'] == ms[k];
    HeightHasGroup(sorted, k');
  }

  /** Matrices whose heights are powers of two (as every Merkle tree's are) give groups
      whose heights are powers of two. */
  lemma HeightGroupsPowerOfTwo(ms: seq<Matrix<int>>)
    requires AllHeightsPowerOfTwo(ms)
    ensures forall j :: 0 <= j < |HeightGroups(ms)| ==> IsPowerOfTwo(HeightGroups(ms)[j].height)
  {
    var groups := HeightGroups(ms);
    forall j | 0 <= j < |groups| ensures IsPowerOfTwo(groups[j].height) {
      HeightGroupIsClass(ms, j);
      WithHeightMembers(ms, groups[j].height);
      assert groups[j].matrices[0] in WithHeight(ms, groups[j].height);
      var k :| 0 <= k < |ms| && ms[k] == groups[j].matrices[0];
    }
  }

  // ---------------------------------------------------------------------------
  // The commit phase with the fold guard corrected to `>`
  // ---------------------------------------------------------------------------

  /** A folded codeword together with the number of `beta` challenges drawn so far. */
  datatype FoldState = FoldState(codeword: seq<int>, draws: nat)

  /** The fold loop with the guard `current.len() > height`: halve the codeword with a fresh
      challenge `betas(draws)` until it is no longer than the next group. */
  function FoldDown(current: seq<int>, height: nat, betas: nat -> int, draws: nat): (r: FoldState)
    requires height >= 1
    ensures |current| <= height ==> r == FoldState(current, draws)
    ensures IsPowerOfTwo(|current|) && IsPowerOfTwo(height) && height <= |current| ==> |r.codeword| == height
    decreases |current|
  {
    if |current| > height then
      HalvingStep(|current|, height);
      FoldDown(FoldEvenOdd(current, betas(draws)), height, betas, draws + 1)
    else FoldState(current, draws)
  }

  /** Folding from one power of two down to another draws one challenge per halving. */
  lemma FoldDownDraws(current: seq<int>, height: nat, betas: nat -> int, draws: nat)
    requires IsPowerOfTwo(|current|) && IsPowerOfTwo(height) && height <= |current|
    ensures FoldDown(current, height, betas, draws).draws == draws + Log2(|current|) - Log2(height)
  {
    PowerOfTwoMultiple(|current|, height);
    FoldDownChallenges(current, height, betas, draws, Log2(|current|) - Log2(height));
  }

  /** A power of two `c` is `h * 2^(log2 c - log2 h)` for every power of two `h <= c`. */
  lemma {:induction false} PowerOfTwoMultiple(c: nat, h: nat)
    requires IsPowerOfTwo(c) && IsPowerOfTwo(h) && h <= c
    ensures Log2(h) <= Log2(c) && c == h * Pow2(Log2(c) - Log2(h))
    decreases c
  {
    if c > h {
      HalvingStep(c, h);
      PowerOfTwoMultiple(c / 2, h);
      var k := Log2(c / 2) - Log2(h);
      assert Pow2(k + 1) == 2 * Pow2(k);
      DoubleMultiple(h, Pow2(k));
    }
  }

  /** One fold halves a power of two that is larger than another power of two, and stays
      at least as large as it. */
  lemma HalvingStep(n: nat, height: nat)
    ensures IsPowerOfTwo(n) && IsPowerOfTwo(height) && height < n ==>
      && n % 2 == 0 && (n + 1) / 2 == n / 2 && IsPowerOfTwo(n / 2)
      && height <= n / 2 && Log2(n) == Log2(n / 2) + 1
  {
    if IsPowerOfTwo(n) && IsPowerOfTwo(height) && height < n {
      SmallerPowerOfTwoAtMostHalf(height, n);
    }
  }

  /** The challenges `betas(draws), betas(draws + 1), ...` of `n` successive halvings. */
  function Challenges(betas: nat -> int, draws: nat, n: nat): (bs: seq<int>)
    ensures |bs| == n
    ensures forall t :: 0 <= t < n ==> bs[t] == betas(draws + t)
  {
    seq(n, t requires 0 <= t < n => betas(draws + t))
  }

  /** The first challenge is drawn now; the rest are the challenges of the next halving on. */
  lemma ChallengesTail(betas: nat -> int, draws: nat, n: nat)
    requires n >= 1
    ensures Challenges(betas, draws, n)[0] == betas(draws)
    ensures Challenges(betas, draws, n)[1..] == Challenges(betas, draws + 1, n - 1)
  {
    var bs := Challenges(betas, draws, n);
    var rest := Challenges(betas, draws + 1, n - 1);
    forall t | 0 <= t < n - 1 ensures bs[1..][t] == rest[t] {
      assert bs[1..][t] == bs[t + 1] == betas(draws + (t + 1));
    }
  }

  /** Fold with each challenge of `bs` in turn, the first one first. */
  function FoldAll(p: seq<int>, bs: seq<int>): seq<int>
    decreases |bs|
  {
    if |bs| == 0 then p else FoldAll(FoldEvenOdd(p, bs[0]), bs[1..])
  }

  /** Folding a codeword `2^n` times longer than `height` takes `n` halvings, and halving
      `t` uses the fresh challenge `betas(draws + t)`. */
  lemma {:induction false} FoldDownChallenges(current: seq<int>, height: nat, betas: nat -> int, draws: nat, n: nat)
    requires height >= 1 && |current| == height * Pow2(n)
    ensures FoldDown(current, height, betas, draws) == FoldState(FoldAll(current, Challenges(betas, draws, n)), draws + n)
    decreases n
  {
    var bs := Challenges(betas, draws, n);
    if n == 0 {
      assert |current| == height;
    } else {
      var half := height * Pow2(n - 1);
      DoubleMultiple(height, Pow2(n - 1));
      var next := FoldEvenOdd(current, betas(draws));
      assert |next| == half;
      FoldDownChallenges(next, height, betas, draws + 1, n - 1);
      ChallengesTail(betas, draws, n);
      assert FoldAll(current, bs) == FoldAll(next, bs[1..]);
    }
  }

  /** The arithmetic of one halving in `FoldDownChallenges`. */
  lemma DoubleMultiple(height: nat, m: nat)
    requires height >= 1 && m >= 1
    ensures height * (2 * m) == 2 * (height * m)
    ensures height * m >= height
  {
  }

  /** The weight coefficient `i` carries after folding with `bs`: the product of `bs[t]`
      over the set bits `t` of `i`. */
  function BitWeight(i: nat, bs: seq<int>): int
    decreases |bs|
  {
    if |bs| == 0 then 1 else (if i % 2 == 1 then bs[0] else 1) * BitWeight(i / 2, bs[1..])
  }

  /** The sum of `p[i] * BitWeight(i, bs)` over `i < n`. */
  function WeightedSum(p: seq<int>, bs: seq<int>, n: nat): int
    requires n <= |p|
  {
    if n == 0 then 0 else WeightedSum(p, bs, n - 1) + p[n - 1] * BitWeight(n - 1, bs)
  }

  /** One fold with `b` merges each pair `2i, 2i + 1` into entry `i` without changing the
      weighted sum. */
  lemma {:induction false} FoldPairsSum(p: seq<int>, b: int, bs: seq<int>, m: nat)
    requires 2 * m <= |p|
    ensures m <= |FoldEvenOdd(p, b)|
    ensures WeightedSum(FoldEvenOdd(p, b), bs, m) == WeightedSum(p, [b] + bs, 2 * m)
    decreases m
  {
    if m > 0 {
      var q := FoldEvenOdd(p, b);
      var bb := [b] + bs;
      var i := m - 1;
      FoldPairsSum(p, b, bs, i);
      var w := BitWeight(i, bs);
      BitWeightOfPair(i, b, bs);
      var x, y := p[2 * i], p[2 * i + 1];
      assert q[i] == x + b * y;
      PairWeight(q[i], x, y, b, w);
      assert WeightedSum(q, bs, m) == WeightedSum(q, bs, i) + q[i] * w;
      assert WeightedSum(p, bb, 2 * i + 1) == WeightedSum(p, bb, 2 * i) + x * w;
      assert WeightedSum(p, bb, 2 * m) == WeightedSum(p, bb, 2 * i + 1) + y * (b * w);
    }
  }

  /** An even index keeps the weight of its half; an odd one gains the first challenge. */
  lemma BitWeightOfPair(i: nat, b: int, bs: seq<int>)
    ensures BitWeight(2 * i, [b] + bs) == BitWeight(i, bs)
    ensures BitWeight(2 * i + 1, [b] + bs) == b * BitWeight(i, bs)
  {
    assert ([b] + bs)[1..] == bs;
    assert (2 * i) / 2 == i && (2 * i + 1) / 2 == i;
    assert (2 * i) % 2 == 0 && (2 * i + 1) % 2 == 1;
  }

  /** The ring step of `FoldPairsSum`. */
  lemma PairWeight(q: int, x: int, y: int, b: int, w: int)
    requires q == x + b * y
    ensures q * w == x * w + y * (b * w)
  {
  }

  /** Folding a list of length `2^|bs|` with every challenge of `bs` leaves the single value
      `sum_i p[i] * prod_{bit t of i} bs[t]`. */
  lemma {:induction false} FoldAllIsWeightedSum(p: seq<int>, bs: seq<int>)
    requires |p| == Pow2(|bs|)
    ensures FoldAll(p, bs) == [WeightedSum(p, bs, |p|)]
    decreases |bs|
  {
    if |bs| == 0 {
      assert WeightedSum(p, bs, 1) == p[0] * BitWeight(0, bs);
    } else {
      var q := FoldEvenOdd(p, bs[0]);
      assert |q| == Pow2(|bs| - 1);
      FoldAllIsWeightedSum(q, bs[1..]);
      FoldPairsSum(p, bs[0], bs[1..], |q|);
      assert [bs[0]] + bs[1..] == bs;
    }
  }

  /** The corrected loop folding a codeword of length `2^n` down to one entry leaves
      `sum_i current[i] * prod_{bit t of i} betas(draws + t)`. */
  lemma FoldDownToOne(current: seq<int>, n: nat, betas: nat -> int, draws: nat)
    requires |current| == Pow2(n)
    ensures FoldDown(current, 1, betas, draws).codeword == [WeightedSum(current, Challenges(betas, draws, n), |current|)]
  {
    FoldDownChallenges(current, 1, betas, draws, n);
    FoldAllIsWeightedSum(current, Challenges(betas, draws, n));
  }

  /** The data the folding variant keeps: committed codewords, `current`, and the number of
      `beta` challenges drawn. */
  datatype FoldingState = FoldingState(committed: seq<seq<int>>, current: seq<int>, draws: nat)

  predicate HeightsPowerOfTwo(groups: seq<Group<int>>) {
    forall t :: 0 <= t < |groups| ==> IsPowerOfTwo(groups[t].height)
  }

  /** The group loop with folding: fold `current` down to the group's height, push it, and
      reduce the group into it. */
  function ReduceGroupsFolding(groups: seq<Group<int>>, j: nat, committed: seq<seq<int>>, current: seq<int>,
                               alpha: int, betas: nat -> int, draws: nat): (st: FoldingState)
    requires GroupsWellFormed(groups) && StrictlyDescending(groups) && HeightsPowerOfTwo(groups)
    requires 1 <= j <= |groups|
    requires j < |groups| ==> IsPowerOfTwo(|current|) && groups[j].height <= |current|
    ensures |st.committed| == |committed| + |groups| - j
    ensures st.committed[..|committed|] == committed
    ensures forall k :: |committed| <= k < |st.committed| ==> |st.committed[k]| == groups[k - |committed| + j].height
    ensures j < |groups| ==> |st.current| == groups[|groups| - 1].height
    ensures j == |groups| ==> st.current == current
    decreases |groups| - j
  {
    if j == |groups| then FoldingState(committed, current, draws)
    else
      var height := groups[j].height;
      var folded := FoldDown(current, height, betas, draws);
      var next := ReduceMatrices(height, folded.codeword, groups[j].matrices, alpha);
      var st := ReduceGroupsFolding(groups, j + 1, committed + [folded.codeword], next, alpha, betas, folded.draws);
      assert st.committed[..|committed| + 1][..|committed|] == st.committed[..|committed|];
      assert st.committed[|committed|] == st.committed[..|committed| + 1][|committed|];
      st
  }

  /** `commit_phase` on its groups with `current.len() > height` as the fold guard. */
  function CommitGroupsFolding(groups: seq<Group<int>>, alpha: int, betas: nat -> int): (st: FoldingState)
    requires GroupsWellFormed(groups) && StrictlyDescending(groups) && HeightsPowerOfTwo(groups)
    requires |groups| > 0
    ensures |st.committed| == |groups|
    ensures forall j :: 0 <= j < |groups| ==> |st.committed[j]| == groups[j].height
    ensures |st.current| == groups[|groups| - 1].height
  {
    var maxHeight := groups[0].height;
    var current := ReduceMatrices(maxHeight, Zeros(maxHeight), groups[0].matrices, alpha);
    ReduceGroupsFolding(groups, 1, [current], current, alpha, betas, 0)
  }

  /** `commit_phase` with the corrected fold guard, on codewords whose matrices have
      power-of-two heights (as every committed Merkle tree's do). Every committed codeword
      has exactly the height of its group. */
  function CommitPhaseFolding<D>(codewords: seq<MerkleTrees.MerkleTree<int, D>>, alpha: int, betas: nat -> int): (r: Result<FoldingState, CommitPhaseError>)
    requires AllHeightsPowerOfTwo(AllMatrices(codewords))
    ensures r.Failure? <==> |AllMatrices(codewords)| == 0
    ensures r.Success? ==> var groups := HeightGroups(AllMatrices(codewords));
      && |r.value.committed| == |groups|
      && (forall j :: 0 <= j < |groups| ==> |r.value.committed[j]| == groups[j].height)
  {
    var groups := HeightGroups(AllMatrices(codewords));
    HeightGroupsPowerOfTwo(AllMatrices(codewords));
    if |groups| == 0 then Failure(NoMatrices) else Success(CommitGroupsFolding(groups, alpha, betas))
  }

  /** Two matrices of heights 4 and 2, one column each, already grouped. */
  function ExampleGroups(): (groups: seq<Group<int>>)
    ensures GroupsWellFormed(groups) && StrictlyDescending(groups) && HeightsPowerOfTwo(groups)
  {
    PowerOfTwoIsPow2(4, 2);
    [Group(4, [Matrix([[1], [2], [3], [4]])]), Group(2, [Matrix([[5], [6]])])]
  }

  lemma ExampleFirstReduction()
    ensures ReduceMatrices(4, Zeros(4), ExampleGroups()[0].matrices, 1) == [1, 2, 3, 4]
  {
    var ms := ExampleGroups()[0].matrices;
    var out := ReduceMatrices(4, Zeros(4), ms, 1);
    forall r | 0 <= r < 4 ensures out[r] == r + 1 {
      assert ConcatRows(ms, r) == ms[0].rows[r];
    }
  }

  lemma ExampleSecondReduction(init: seq<int>)
    requires |init| == 2
    ensures ReduceMatrices(2, init, ExampleGroups()[1].matrices, 1) == [init[0] + 5, init[1] + 6]
  {
    var ms := ExampleGroups()[1].matrices;
    var out := ReduceMatrices(2, init, ms, 1);
    forall r | 0 <= r < 2 ensures out[r] == init[r] + ms[0].rows[r][0] {
      assert ConcatRows(ms, r) == ms[0].rows[r];
    }
  }

  /** The height-2 matrix added to the example's folded rows `[1 + 2 beta, 3 + 4 beta]`. */
  lemma ExampleSecondFolded(betas: nat -> int)
    ensures ReduceMatrices(2, FoldDown([1, 2, 3, 4], 2, betas, 0).codeword, ExampleGroups()[1].matrices, 1)
      == [6 + 2 * betas(0), 9 + 4 * betas(0)]
  {
    var c := FoldDown([1, 2, 3, 4], 2, betas, 0).codeword;
    assert c == [1 + 2 * betas(0), 3 + 4 * betas(0)] by { ExampleFoldDown(betas); }
    ExampleSecondReduction([1 + 2 * betas(0), 3 + 4 * betas(0)]);
  }

  /** As written, the second committed codeword repeats the first, and the height-2 matrix is
      added to rows 0 and 1 of the unfolded height-4 codeword. */
  lemma AsWrittenExample()
    ensures CommitGroups(ExampleGroups(), 1) == CommitPhaseState([[1, 2, 3, 4], [1, 2, 3, 4]], [6, 8])
  {
    var groups := ExampleGroups();
    var first := [1, 2, 3, 4];
    ExampleFirstReduction();
    ExampleSecondReduction(first[..2]);
    ReducePrefix(2, 2, first, first[..2], groups[1].matrices, 1);
    assert CommitGroups(groups, 1) == ReduceGroups(groups, 1, [first], first, 1);
  }

  lemma FoldOfFour(p: seq<int>, beta: int)
    requires |p| == 4
    ensures FoldEvenOdd(p, beta) == [p[0] + beta * p[1], p[2] + beta * p[3]]
  {
    var r := FoldEvenOdd(p, beta);
    assert |r| == 2;
    assert r[0] == p[0] + beta * p[1];
    assert r[1] == p[2] + beta * p[3];
  }

  /** With the corrected guard, the height-4 codeword of the example is folded to
      `[1 + 2 beta, 3 + 4 beta]` (with `beta` the first challenge drawn) before the height-2
      matrix is added to it; as written, rows `[1, 2]` are used unfolded. */
  lemma ExampleFoldDown(betas: nat -> int)
    ensures FoldDown([1, 2, 3, 4], 2, betas, 0) == FoldState([1 + 2 * betas(0), 3 + 4 * betas(0)], 1)
    ensures FoldDown([1, 2, 3, 4], 2, betas, 0).codeword != [1, 2]
  {
    var first := [1, 2, 3, 4];
    var folded := FoldEvenOdd(first, betas(0));
    FoldOfFour(first, betas(0));
    assert |first| > 2;
    assert FoldDown(first, 2, betas, 0) == FoldDown(folded, 2, betas, 1);
    assert |folded| == 2;
  }

  /** The weights of the four coefficients after folding with `b0` and then `b1`. */
  lemma BitWeightsOfFour(b0: int, b1: int)
    ensures BitWeight(0, [b0, b1]) == 1 && BitWeight(1, [b0, b1]) == b0
    ensures BitWeight(2, [b0, b1]) == b1 && BitWeight(3, [b0, b1]) == b0 * b1
  {
    assert [b0, b1][1..] == [b1];
    assert [b1][1..] == [];
    assert BitWeight(0, []) == 1;
    assert BitWeight(0, [b1]) == 1 && BitWeight(1, [b1]) == b1;
    assert BitWeight(0, [b0, b1]) == BitWeight(0, [b1]);
    assert BitWeight(1, [b0, b1]) == b0 * BitWeight(0, [b1]);
    assert BitWeight(2, [b0, b1]) == BitWeight(1, [b1]);
    assert BitWeight(3, [b0, b1]) == b0 * BitWeight(1, [b1]);
  }

  lemma WeightedSumOfFour(p: seq<int>, bs: seq<int>)
    requires |p| == 4
    ensures WeightedSum(p, bs, 4)
      == p[0] * BitWeight(0, bs) + p[1] * BitWeight(1, bs) + p[2] * BitWeight(2, bs) + p[3] * BitWeight(3, bs)
  {
    assert WeightedSum(p, bs, 1) == p[0] * BitWeight(0, bs);
    assert WeightedSum(p, bs, 2) == WeightedSum(p, bs, 1) + p[1] * BitWeight(1, bs);
    assert WeightedSum(p, bs, 3) == WeightedSum(p, bs, 2) + p[2] * BitWeight(2, bs);
  }

  /** Folding four coefficients down to one uses `betas(0)` for the first halving and
      `betas(1)` for the second: coefficient `i` is weighted by the challenges of the set
      bits of `i`. */
  lemma ExampleFoldDownToOne(p: seq<int>, betas: nat -> int)
    requires |p| == 4
    ensures FoldDown(p, 1, betas, 0).codeword
      == [p[0] + p[1] * betas(0) + p[2] * betas(1) + p[3] * (betas(0) * betas(1))]
  {
    assert Pow2(2) == 4;
    FoldDownToOne(p, 2, betas, 0);
    assert Challenges(betas, 0, 2) == [betas(0), betas(1)];
    WeightedSumOfFour(p, [betas(0), betas(1)]);
    BitWeightsOfFour(betas(0), betas(1));
  }

  /** The corrected commit phase on the example: the height-4 codeword is committed, folded
      with the first challenge, committed at height 2, and the height-2 matrix is added to
      the folded rows. */
  lemma FoldedExample(betas: nat -> int)
    ensures CommitGroupsFolding(ExampleGroups(), 1, betas)
      == FoldingState([[1, 2, 3, 4], [1 + 2 * betas(0), 3 + 4 * betas(0)]], [6 + 2 * betas(0), 9 + 4 * betas(0)], 1)
  {
    ExampleFoldDown(betas);
    ExampleSecondFolded(betas);
    ExampleFirstReduction();
    ExampleGroupsShape();
    TwoGroupsFolding(ExampleGroups(), 4, 2, 1, betas, [1, 2, 3, 4], FoldDown([1, 2, 3, 4], 2, betas, 0),
                     [6 + 2 * betas(0), 9 + 4 * betas(0)]);
  }

  lemma ExampleGroupsShape()
    ensures |ExampleGroups()| == 2 && ExampleGroups()[0].height == 4 && ExampleGroups()[1].height == 2
  {
  }

  /** The corrected commit phase on two groups: commit the first reduction, fold it down to
      the second height, commit that, and reduce the second group into it. */
  lemma TwoGroupsFolding(groups: seq<Group<int>>, h0: nat, h1: nat, alpha: int, betas: nat -> int,
                         first: seq<int>, folded: FoldState, second: seq<int>)
    requires GroupsWellFormed(groups) && StrictlyDescending(groups) && HeightsPowerOfTwo(groups)
    requires |groups| == 2 && groups[0].height == h0 && groups[1].height == h1
    requires ReduceMatrices(h0, Zeros(h0), groups[0].matrices, alpha) == first
    requires FoldDown(first, h1, betas, 0) == folded
    requires ReduceMatrices(h1, folded.codeword, groups[1].matrices, alpha) == second
    ensures CommitGroupsFolding(groups, alpha, betas) == FoldingState([first, folded.codeword], second, folded.draws)
  {
    assert CommitGroupsFolding(groups, alpha, betas) == ReduceGroupsFolding(groups, 1, [first], first, alpha, betas, 0);
    ReduceGroupsFoldingStep(groups, 1, [first], first, alpha, betas, 0, folded, second);
    assert [first] + [folded.codeword] == [first, folded.codeword];
  }

  /** One iteration of the folding group loop, with its fold and its reduction named. */
  lemma ReduceGroupsFoldingStep(groups: seq<Group<int>>, j: nat, committed: seq<seq<int>>, current: seq<int>,
                                alpha: int, betas: nat -> int, draws: nat, folded: FoldState, next: seq<int>)
    requires GroupsWellFormed(groups) && StrictlyDescending(groups) && HeightsPowerOfTwo(groups)
    requires 1 <= j < |groups|
    requires IsPowerOfTwo(|current|) && groups[j].height <= |current|
    requires FoldDown(current, groups[j].height, betas, draws) == folded
    requires ReduceMatrices(groups[j].height, folded.codeword, groups[j].matrices, alpha) == next
    ensures |next| == groups[j].height
    ensures ReduceGroupsFolding(groups, j, committed, current, alpha, betas, draws)
      == ReduceGroupsFolding(groups, j + 1, committed + [folded.codeword], next, alpha, betas, folded.draws)
  {
  }
}
