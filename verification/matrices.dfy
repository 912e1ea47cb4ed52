/** Row-major matrices as they are handed to the commitment layer, together with the
    ordering and grouping machinery that the Merkle tree and the FRI commit phase share:
    powers of two, the stable sort by descending height, and the split of a sorted list
    into runs of equal height. */
module Matrices {

  /** A matrix is its sequence of rows; its height is the number of rows. */
  datatype Matrix<T> = Matrix(rows: seq<seq<T>>) {

    function Height(): nat {
      |rows|
    }
  }

  /** The matrices of one height, in the order the sorted list holds them. */
  datatype Group<T> = Group(height: nat, matrices: seq<Matrix<T>>)

  // ---------------------------------------------------------------------------
  // Powers of two
  // ---------------------------------------------------------------------------

  /** `usize::is_power_of_two`: exactly one bit set, so 0 is not a power of two. */
  predicate IsPowerOfTwo(n: nat)
    decreases n
  {
    n == 1 || (n >= 2 && n % 2 == 0 && IsPowerOfTwo(n / 2))
  }

  function Pow2(k: nat): (r: nat)
    ensures r >= 1
  {
    if k == 0 then 1 else 2 * Pow2(k - 1)
  }

  /** The exponent of a power of two. */
  function Log2(n: nat): (k: nat)
    requires IsPowerOfTwo(n)
    ensures Pow2(k) == n
    decreases n
  {
    if n == 1 then 0 else 1 + Log2(n / 2)
  }

  /** The recursive predicate agrees with "is `2^k` for some `k`", in both directions. */
  lemma {:induction false} PowerOfTwoIsPow2(n: nat, k: nat)
    ensures IsPowerOfTwo(Pow2(k))
    ensures IsPowerOfTwo(n) ==> n == Pow2(Log2(n))
    ensures n == Pow2(k) ==> IsPowerOfTwo(n) && Log2(n) == k
    decreases k
  {
    if k > 0 {
      PowerOfTwoIsPow2(Pow2(k - 1), k - 1);
      assert Pow2(k) / 2 == Pow2(k - 1);
    }
  }

  /** Two powers of two that differ differ by at least a factor of two. */
  lemma {:induction false} SmallerPowerOfTwoAtMostHalf(x: nat, p: nat)
    requires IsPowerOfTwo(x) && IsPowerOfTwo(p)
    requires x < p
    ensures 2 * x <= p
    decreases x
  {
    if x != 1 {
      SmallerPowerOfTwoAtMostHalf(x / 2, p / 2);
    }
  }

  predicate AllHeightsPowerOfTwo<T>(ms: seq<Matrix<T>>) {
    forall k :: 0 <= k < |ms| ==> IsPowerOfTwo(ms[k].Height())
  }

  // ---------------------------------------------------------------------------
  // Heights, rows and filters
  // ---------------------------------------------------------------------------

  /** Every matrix has at least `n` rows, so rows `0..n` can be read from each. */
  predicate AllAtLeast<T>(ms: seq<Matrix<T>>, n: nat) {
    forall k :: 0 <= k < |ms| ==> n <= ms[k].Height()
  }

  /** Row `i` of every matrix, concatenated in list order (the input of `hash_iter_slices`). */
  function ConcatRows<T>(ms: seq<Matrix<T>>, i: nat): (r: seq<T>)
    requires AllAtLeast(ms, i + 1)
    ensures |ms| == 0 ==> r == []
  {
    if |ms| == 0 then [] else ms[0].rows[i] + ConcatRows(ms[1..], i)
  }

  lemma AllAtLeastAppend<T>(a: seq<Matrix<T>>, b: seq<Matrix<T>>, n: nat)
    requires AllAtLeast(a, n) && AllAtLeast(b, n)
    ensures AllAtLeast(a + b, n)
  {
    forall k | 0 <= k < |a + b| ensures n <= (a + b)[k].Height() {
      if k >= |a| {
        assert (a + b)[k] == b[k - |a|];
      }
    }
  }

  lemma {:induction false} ConcatRowsAppend<T>(a: seq<Matrix<T>>, b: seq<Matrix<T>>, i: nat)
    requires AllAtLeast(a, i + 1) && AllAtLeast(b, i + 1)
    ensures AllAtLeast(a + b, i + 1)
    ensures ConcatRows(a + b, i) == ConcatRows(a, i) + ConcatRows(b, i)
    decreases |a|
  {
    AllAtLeastAppend(a, b, i + 1);
    if |a| > 0 {
      assert (a + b)[1..] == a[1..] + b;
      ConcatRowsAppend(a[1..], b, i);
      assert ConcatRows(a + b, i) == a[0].rows[i] + ConcatRows(a[1..] + b, i);
    } else {
      assert a + b == b;
    }
  }

  /** The matrices of height `q`, keeping their relative order. */
  function WithHeight<T>(s: seq<Matrix<T>>, q: nat): (r: seq<Matrix<T>>)
    ensures |r| <= |s|
    ensures forall k :: 0 <= k < |r| ==> r[k].Height() == q
  {
    if |s| == 0 then []
    else (if s[0].Height() == q then [s[0]] else []) + WithHeight(s[1..], q)
  }

  /** The filter keeps a list whose matrices all have the height. */
  lemma {:induction false} WithHeightAll<T>(s: seq<Matrix<T>>, q: nat)
    requires forall k :: 0 <= k < |s| ==> s[k].Height() == q
    ensures WithHeight(s, q) == s
    decreases |s|
  {
    if |s| > 0 {
      WithHeightAll(s[1..], q);
      assert s == [s[0]] + s[1..];
    }
  }

  /** The filter empties a list none of whose matrices has the height. */
  lemma {:induction false} WithHeightNone<T>(s: seq<Matrix<T>>, q: nat)
    requires forall k :: 0 <= k < |s| ==> s[k].Height() != q
    ensures WithHeight(s, q) == []
    decreases |s|
  {
    if |s| > 0 {
      WithHeightNone(s[1..], q);
    }
  }

  lemma {:induction false} WithHeightAppend<T>(a: seq<Matrix<T>>, b: seq<Matrix<T>>, q: nat)
    ensures WithHeight(a + b, q) == WithHeight(a, q) + WithHeight(b, q)
    decreases |a|
  {
    if |a| > 0 {
      assert (a + b)[1..] == a[1..] + b;
      WithHeightAppend(a[1..], b, q);
    } else {
      assert a + b == b;
    }
  }

  /** A matrix of height `q` is in the list iff it is in the filter for `q`. */
  lemma {:induction false} WithHeightMembers<T>(s: seq<Matrix<T>>, q: nat)
    ensures forall m :: m in WithHeight(s, q) <==> m in s && m.Height() == q
    decreases |s|
  {
    if |s| > 0 {
      WithHeightMembers(s[1..], q);
      assert s == [s[0]] + s[1..];
    }
  }

  /** The largest height in a non-empty list. */
  function MaxHeight<T>(s: seq<Matrix<T>>): (h: nat)
    requires |s| > 0
    ensures forall k :: 0 <= k < |s| ==> s[k].Height() <= h
    ensures exists k :: 0 <= k < |s| && s[k].Height() == h
  {
    if |s| == 1 then s[0].Height()
    else
      var rest := MaxHeight(s[1..]);
      if s[0].Height() >= rest then s[0].Height() else rest
  }

  // ---------------------------------------------------------------------------
  // Stable sort by descending height (`sorted_by_key(|m| Reverse(m.height()))`)
  // ---------------------------------------------------------------------------

  ghost predicate SortedByHeightDesc<T>(s: seq<Matrix<T>>) {
    forall i, j :: 0 <= i < j < |s| ==> s[i].Height() >= s[j].Height()
  }

  /** Inserts `x` in front of the first matrix that is not taller than it, so that `x`
      precedes every matrix of its own height. */
  function Insert<T>(x: Matrix<T>, s: seq<Matrix<T>>): (r: seq<Matrix<T>>)
    ensures multiset(r) == multiset(s) + multiset{x}
    decreases |s|
  {
    if |s| == 0 || s[0].Height() <= x.Height() then [x] + s
    else
      assert s == [s[0]] + s[1..];
      [s[0]] + Insert(x, s[1..])
  }

  /** A list that is sorted and no taller than `m` stays sorted with `m` in front. */
  lemma PrependSorted<T>(m: Matrix<T>, t: seq<Matrix<T>>)
    requires SortedByHeightDesc(t)
    requires forall k :: 0 <= k < |t| ==> t[k].Height() <= m.Height()
    ensures SortedByHeightDesc([m] + t)
  {
    var r := [m] + t;
    forall i, j | 0 <= i < j < |r| ensures r[i].Height() >= r[j].Height() {
      if i > 0 {
        assert r[i] == t[i - 1] && r[j] == t[j - 1];
      } else {
        assert r[j] == t[j - 1];
      }
    }
  }

  /** Inserting below a bound keeps every height below it. */
  lemma {:induction false} InsertBounded<T>(x: Matrix<T>, s: seq<Matrix<T>>, b: nat)
    requires x.Height() <= b
    requires forall k :: 0 <= k < |s| ==> s[k].Height() <= b
    ensures forall k :: 0 <= k < |Insert(x, s)| ==> Insert(x, s)[k].Height() <= b
    decreases |s|
  {
    if |s| > 0 && s[0].Height() > x.Height() {
      InsertBounded(x, s[1..], b);
      var tail := Insert(x, s[1..]);
      assert Insert(x, s) == [s[0]] + tail;
      forall k | 0 <= k < |Insert(x, s)| ensures Insert(x, s)[k].Height() <= b {
        if k > 0 {
          assert Insert(x, s)[k] == tail[k - 1];
        }
      }
    } else {
      forall k | 0 <= k < |Insert(x, s)| ensures Insert(x, s)[k].Height() <= b {
        if k > 0 {
          assert Insert(x, s)[k] == s[k - 1];
        }
      }
    }
  }

  lemma {:induction false} InsertSorted<T>(x: Matrix<T>, s: seq<Matrix<T>>)
    requires SortedByHeightDesc(s)
    ensures SortedByHeightDesc(Insert(x, s))
    decreases |s|
  {
    if |s| == 0 || s[0].Height() <= x.Height() {
      PrependSorted(x, s);
    } else {
      var tail := Insert(x, s[1..]);
      InsertSorted(x, s[1..]);
      InsertBounded(x, s[1..], s[0].Height());
      PrependSorted(s[0], tail);
    }
  }

  /** A stable sort of the list by descending height. */
  function SortByHeightDesc<T>(s: seq<Matrix<T>>): (r: seq<Matrix<T>>)
    ensures multiset(r) == multiset(s)
    ensures SortedByHeightDesc(r)
  {
    if |s| == 0 then []
    else
      assert s == [s[0]] + s[1..];
      InsertSorted(s[0], SortByHeightDesc(s[1..]));
      Insert(s[0], SortByHeightDesc(s[1..]))
  }

  lemma {:induction false} InsertKeepsHeightClasses<T>(x: Matrix<T>, s: seq<Matrix<T>>, q: nat)
    ensures WithHeight(Insert(x, s), q) == WithHeight([x] + s, q)
    decreases |s|
  {
    if |s| > 0 && s[0].Height() > x.Height() {
      var tail := Insert(x, s[1..]);
      assert Insert(x, s) == [s[0]] + tail;
      InsertKeepsHeightClasses(x, s[1..], q);
      var wx, w0, w1 := WithHeight([x], q), WithHeight([s[0]], q), WithHeight(s[1..], q);
      WithHeightAppend([s[0]], tail, q);
      WithHeightAppend([x], s[1..], q);
      assert WithHeight(Insert(x, s), q) == w0 + (wx + w1);
      assert s == [s[0]] + s[1..];
      WithHeightAppend([s[0]], s[1..], q);
      WithHeightAppend([x], s, q);
      assert WithHeight([x] + s, q) == wx + (w0 + w1);
      WithHeightSingle(x, q);
      WithHeightSingle(s[0], q);
    }
  }

  lemma WithHeightSingle<T>(m: Matrix<T>, q: nat)
    ensures WithHeight([m], q) == if m.Height() == q then [m] else []
  {
    assert [m][1..] == [];
  }

  /** Stability: within each height the sorted list keeps the input order, which (with
      the permutation and descending order) pins the sorted list down completely. */
  lemma {:induction false} SortIsStable<T>(s: seq<Matrix<T>>, q: nat)
    ensures WithHeight(SortByHeightDesc(s), q) == WithHeight(s, q)
    decreases |s|
  {
    if |s| > 0 {
      SortIsStable(s[1..], q);
      InsertKeepsHeightClasses(s[0], SortByHeightDesc(s[1..]), q);
      assert ([s[0]] + SortByHeightDesc(s[1..]))[1..] == SortByHeightDesc(s[1..]);
    }
  }

  /** The sorted list starts with a matrix of the largest height. */
  lemma SortedStartsWithMax<T>(s: seq<Matrix<T>>)
    requires |s| > 0
    ensures |SortByHeightDesc(s)| == |s|
    ensures SortByHeightDesc(s)[0].Height() == MaxHeight(s)
  {
    var r := SortByHeightDesc(s);
    assert |r| == |multiset(r)| == |multiset(s)| == |s|;
    assert r[0] in multiset(s);
    var k :| 0 <= k < |s| && s[k].Height() == MaxHeight(s);
    assert s[k] in multiset(r);
    var j :| 0 <= j < |r| && r[j] == s[k];
    assert j == 0 || r[0].Height() >= r[j].Height();
  }

  // ---------------------------------------------------------------------------
  // Runs of equal height (`peeking_take_while` and `group_by`)
  // ---------------------------------------------------------------------------

  /** The length of the longest prefix whose matrices all have height `q`: what
      `peeking_take_while(|m| m.height() == q)` takes; the first other matrix stays. */
  function RunLength<T>(s: seq<Matrix<T>>, q: nat): (n: nat)
    ensures n <= |s|
    ensures forall k :: 0 <= k < n ==> s[k].Height() == q
    ensures n < |s| ==> s[n].Height() != q
  {
    if |s| == 0 || s[0].Height() != q then 0 else 1 + RunLength(s[1..], q)
  }

  /** On a sorted list whose heights are at most `q`, the run of height `q` is exactly the
      filter for `q`, and the rest is exactly the matrices shorter than `q`. */
  lemma RunOfSortedIsFilter<T>(s: seq<Matrix<T>>, q: nat)
    requires SortedByHeightDesc(s)
    requires forall k :: 0 <= k < |s| ==> s[k].Height() <= q
    ensures RunLength(s, q) <= |s|
    ensures s[..RunLength(s, q)] == WithHeight(s, q)
    ensures forall k :: RunLength(s, q) <= k < |s| ==> s[k].Height() < q
  {
    var n := RunLength(s, q);
    forall k | n <= k < |s| ensures s[k].Height() < q {
      assert s[k].Height() <= s[n].Height();
    }
    SplitAtRun(s, n, q);
  }

  lemma SplitAtRun<T>(s: seq<Matrix<T>>, n: nat, q: nat)
    requires n <= |s|
    requires forall k :: 0 <= k < n ==> s[k].Height() == q
    requires forall k :: n <= k < |s| ==> s[k].Height() < q
    ensures s[..n] == WithHeight(s, q)
  {
    var pre, post := s[..n], s[n..];
    assert s == pre + post;
    WithHeightAppend(pre, post, q);
    assert forall k :: 0 <= k < |post| ==> post[k].Height() != q by {
      forall k | 0 <= k < |post| ensures post[k].Height() != q {
        assert post[k] == s[n + k];
      }
    }
    WithHeightAll(pre, q);
    WithHeightNone(post, q);
  }

  /** A suffix of a sorted list is sorted, and its heights are heights of the list. */
  lemma SuffixOfSorted<T>(s: seq<Matrix<T>>, n: nat)
    requires n <= |s|
    ensures SortedByHeightDesc(s) ==> SortedByHeightDesc(s[n..])
    ensures AllHeightsPowerOfTwo(s) ==> AllHeightsPowerOfTwo(s[n..])
    ensures forall k :: 0 <= k < |s[n..]| ==> s[n..][k] == s[n + k]
  {
  }

  function Flatten<T>(gs: seq<Group<T>>): (r: seq<Matrix<T>>)
  {
    if |gs| == 0 then [] else gs[0].matrices + Flatten(gs[1..])
  }

  lemma {:induction false} FlattenAppend<T>(a: seq<Group<T>>, b: seq<Group<T>>)
    ensures Flatten(a + b) == Flatten(a) + Flatten(b)
    decreases |a|
  {
    if |a| > 0 {
      assert (a + b)[1..] == a[1..] + b;
      FlattenAppend(a[1..], b);
    } else {
      assert a + b == b;
    }
  }

  /** Each group is non-empty and every matrix in it has the group's height. */
  ghost predicate GroupsWellFormed<T>(gs: seq<Group<T>>) {
    forall j :: 0 <= j < |gs| ==>
      && |gs[j].matrices| > 0
      && forall k :: 0 <= k < |gs[j].matrices| ==> gs[j].matrices[k].Height() == gs[j].height
  }

  ghost predicate StrictlyDescending<T>(gs: seq<Group<T>>) {
    forall i, j :: 0 <= i < j < |gs| ==> gs[i].height > gs[j].height
  }

  /** `group_by(|m| m.height())`: the maximal runs of consecutive equal heights. */
  function GroupByHeight<T>(s: seq<Matrix<T>>): (gs: seq<Group<T>>)
    ensures Flatten(gs) == s
    ensures GroupsWellFormed(gs)
    ensures |s| > 0 ==> |gs| > 0 && gs[0].height == s[0].Height()
    ensures forall j :: 0 <= j < |gs| - 1 ==> gs[j].height != gs[j + 1].height
    decreases |s|
  {
    if |s| == 0 then []
    else
      var n := RunLength(s, s[0].Height());
      var rest := GroupByHeight(s[n..]);
      assert s == s[..n] + s[n..];
      [Group(s[0].Height(), s[..n])] + rest
  }

  /** Sorted input: the suffix left after the first run is sorted and strictly shorter. */
  lemma SortedAfterFirstRun<T>(s: seq<Matrix<T>>)
    requires SortedByHeightDesc(s) && |s| > 0
    ensures RunLength(s, s[0].Height()) >= 1
    ensures SortedByHeightDesc(s[RunLength(s, s[0].Height())..])
    ensures forall k :: 0 <= k < |s[RunLength(s, s[0].Height())..]| ==>
      s[RunLength(s, s[0].Height())..][k].Height() < s[0].Height()
    ensures s[..RunLength(s, s[0].Height())] == WithHeight(s, s[0].Height())
  {
    var n := RunLength(s, s[0].Height());
    RunOfSortedIsFilter(s, s[0].Height());
    forall k | 0 <= k < |s[n..]| ensures s[n..][k].Height() < s[0].Height() {
      assert s[n..][k] == s[n + k];
    }
  }

  /** On a sorted list the groups strictly descend. */
  lemma {:induction false} GroupsOfSortedDescend<T>(s: seq<Matrix<T>>)
    requires SortedByHeightDesc(s)
    ensures StrictlyDescending(GroupByHeight(s))
    decreases |s|
  {
    if |s| > 0 {
      var gs := GroupByHeight(s);
      var n := RunLength(s, s[0].Height());
      var rest := GroupByHeight(s[n..]);
      assert gs == [Group(s[0].Height(), s[..n])] + rest;
      SortedAfterFirstRun(s);
      GroupsOfSortedDescend(s[n..]);
      GroupHeightsBelow(rest, s[0].Height(), s[n..]);
      forall i, j | 0 <= i < j < |gs| ensures gs[i].height > gs[j].height {
        assert gs[j] == rest[j - 1];
        if i > 0 {
          assert gs[i] == rest[i - 1];
        }
      }
    }
  }

  /** On a sorted list each group is exactly the filter of the list for its height. */
  lemma {:induction false} GroupIsFilter<T>(s: seq<Matrix<T>>, j: nat)
    requires SortedByHeightDesc(s)
    requires j < |GroupByHeight(s)|
    ensures GroupByHeight(s)[j].matrices == WithHeight(s, GroupByHeight(s)[j].height)
    decreases |s|
  {
    var gs := GroupByHeight(s);
    var n := RunLength(s, s[0].Height());
    var rest := GroupByHeight(s[n..]);
    assert gs == [Group(s[0].Height(), s[..n])] + rest;
    SortedAfterFirstRun(s);
    assert s == s[..n] + s[n..];
    WithHeightAppend(s[..n], s[n..], gs[j].height);
    if j == 0 {
      WithHeightAll(s[..n], s[0].Height());
      WithHeightNone(s[n..], s[0].Height());
    } else {
      assert gs[j] == rest[j - 1];
      GroupIsFilter(s[n..], j - 1);
      GroupHeightsBelow(rest, s[0].Height(), s[n..]);
      WithHeightNone(s[..n], gs[j].height);
    }
  }

  /** Every height of the list is the height of one of its groups. */
  lemma {:induction false} HeightHasGroup<T>(s: seq<Matrix<T>>, k: nat)
    requires k < |s|
    ensures exists j :: 0 <= j < |GroupByHeight(s)| && GroupByHeight(s)[j].height == s[k].Height()
    decreases |s|
  {
    var gs := GroupByHeight(s);
    var n := RunLength(s, s[0].Height());
    var rest := GroupByHeight(s[n..]);
    assert gs == [Group(s[0].Height(), s[..n])] + rest;
    if k < n {
      assert gs[0].height == s[k].Height();
    } else {
      HeightHasGroup(s[n..], k - n);
      assert s[n..][k - n] == s[k];
      var j :| 0 <= j < |rest| && rest[j].height == s[k].Height();
      assert gs[j + 1] == rest[j];
    }
  }

  /** The groups of a list whose heights are all below `b` have heights below `b`. */
  lemma {:induction false} GroupHeightsBelow<T>(gs: seq<Group<T>>, b: nat, s: seq<Matrix<T>>)
    requires gs == GroupByHeight(s)
    requires forall k :: 0 <= k < |s| ==> s[k].Height() < b
    ensures forall j :: 0 <= j < |gs| ==> gs[j].height < b
  {
    forall j | 0 <= j < |gs| ensures gs[j].height < b {
      GroupMemberInList(gs, j, s);
    }
  }

  lemma {:induction false} GroupMemberInList<T>(gs: seq<Group<T>>, j: nat, s: seq<Matrix<T>>)
    requires gs == GroupByHeight(s)
    requires j < |gs|
    ensures exists k :: 0 <= k < |s| && s[k].Height() == gs[j].height
    decreases |s|
  {
    var n := RunLength(s, s[0].Height());
    if j > 0 {
      GroupMemberInList(gs[1..], j - 1, s[n..]);
      var k :| 0 <= k < |s[n..]| && s[n..][k].Height() == gs[1..][j - 1].height;
      assert s[n + k] == s[n..][k];
    } else {
      assert s[0].Height() == gs[0].height;
    }
  }
}
