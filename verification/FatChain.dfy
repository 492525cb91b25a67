/** The cluster-chain walk of stage2/FAT16/chain.c over a FAT16 table (Microsoft FAT specification,
    section "FAT Data Structure"). */
module FatChain {
  import opened Ints

  const EOC_START := 0xFFF8
  const BAD_CLUSTER := 0xFFF7
  const FREE_CLUSTER := 0x0000

  /** The longest chain whose array fits the 16-bit size `realloc` takes. */
  const LONGEST := 32767

  predicate Ends(c: U16) {
    c >= EOC_START
  }

  /** A cluster the walk may pass through. */
  predicate Good(fat: seq<U16>, c: U16) {
    c != FREE_CLUSTER && c != BAD_CLUSTER && c < EOC_START && c < |fat|
  }

  /** The cluster `k` links after `start`; the walk stays where it cannot go on. */
  function Walk(fat: seq<U16>, start: U16, k: nat): U16 {
    if k == 0 then start
    else
      var c := Walk(fat, start, k - 1);
      if Good(fat, c) then fat[c] else c
  }

  function Path(fat: seq<U16>, start: U16, k: nat): (p: seq<U16>)
    ensures |p| == k && forall i :: 0 <= i < k ==> p[i] == Walk(fat, start, i)
  {
    seq(k, i requires 0 <= i => Walk(fat, start, i))
  }

  ghost predicate AllGood(fat: seq<U16>, start: U16, k: nat) {
    forall i: nat :: i < k ==> Good(fat, Walk(fat, start, i))
  }

  /** The chain from `start` is `k` clusters long and properly terminated. */
  ghost predicate EndsAfter(fat: seq<U16>, start: U16, k: nat) {
    AllGood(fat, start, k) && Ends(Walk(fat, start, k))
  }

  /** The chain from `start` never leaves the good clusters. */
  ghost predicate Cycles(fat: seq<U16>, start: U16) {
    forall i: nat :: Good(fat, Walk(fat, start, i))
  }

  // ---------- the walk is deterministic ----------

  lemma {:induction false} WalkFrom(fat: seq<U16>, start: U16, j: nat, k: nat)
    ensures Walk(fat, start, j + k) == Walk(fat, Walk(fat, start, j), k)
  {
    if k > 0 {
      WalkFrom(fat, start, j, k - 1);
      assert j + k - 1 == j + (k - 1);
    }
  }

  /** A repeated cluster means the walk goes round for ever. */
  lemma RepeatCycles(fat: seq<U16>, start: U16, i: nat, j: nat)
    requires i < j && AllGood(fat, start, j) && Walk(fat, start, i) == Walk(fat, start, j)
    ensures Cycles(fat, start)
  {
    forall n: nat
      ensures Good(fat, Walk(fat, start, n))
    {
      Periodic(fat, start, i, j, n);
    }
  }

  lemma {:induction false} Periodic(fat: seq<U16>, start: U16, i: nat, j: nat, n: nat)
    requires i < j && AllGood(fat, start, j) && Walk(fat, start, i) == Walk(fat, start, j)
    ensures Good(fat, Walk(fat, start, n))
  {
    if n >= j {
      var m := n - j + i;
      WalkFrom(fat, start, j, n - j);
      WalkFrom(fat, start, i, n - j);
      Periodic(fat, start, i, j, m);
    }
  }

  // ---------- pigeonhole ----------

  predicate Distinct(p: seq<U16>) {
    forall i, j :: 0 <= i < j < |p| ==> p[i] != p[j]
  }

  /** Distinct numbers below `n`, all at least 1, are fewer than `n`. */
  lemma {:induction false} DistinctFewer(p: seq<U16>, n: nat)
    requires Distinct(p) && n > 0 && forall i :: 0 <= i < |p| ==> 1 <= p[i] < n
    ensures |p| < n
  {
    if i :| 0 <= i < |p| && p[i] == n - 1 {
      var q := p[..i] + p[i + 1..];
      assert forall k :: 0 <= k < |q| ==> q[k] == p[if k < i then k else k + 1];
      if |p| > 1 {
        assert q[0] < n - 1;
        DistinctFewer(q, n - 1);
      }
    } else if |p| > 0 {
      assert p[0] < n - 1;
      DistinctFewer(p, n - 1);
    }
  }

  /** As many good steps as the table has entries force a cycle. */
  lemma TooLongCycles(fat: seq<U16>, start: U16)
    requires AllGood(fat, start, |fat|) && |fat| > 0
    ensures Cycles(fat, start)
  {
    var p := Path(fat, start, |fat|);
    if Distinct(p) {
      DistinctFewer(p, |fat|);
      assert false;
    } else {
      var i: nat, j: nat :| i < j < |p| && p[i] == p[j];
      RepeatCycles(fat, start, i, j);
    }
  }

  lemma EndedDistinct(fat: seq<U16>, start: U16, k: nat)
    requires EndsAfter(fat, start, k)
    ensures Distinct(Path(fat, start, k))
    ensures |fat| > 0 ==> k < |fat|
    ensures k > 0 ==> k < |fat|
    ensures !Cycles(fat, start)
  {
    assert !Good(fat, Walk(fat, start, k));
    var p := Path(fat, start, k);
    forall i, j | 0 <= i < j < |p|
      ensures p[i] != p[j]
    {
      if p[i] == p[j] {
        RepeatCycles(fat, start, i, j);
      }
    }
    assert k > 0 ==> Good(fat, Walk(fat, start, 0));
    if |fat| > 0 {
      DistinctFewer(p, |fat|);
    }
  }

  // ---------- what traverse_chain computes ----------

  /** How many good clusters the walk passes, counting no further than `limit`. */
  function GoodPrefix(fat: seq<U16>, start: U16, limit: nat): (k: nat)
    ensures k <= limit && AllGood(fat, start, k)
    ensures k < limit ==> !Good(fat, Walk(fat, start, k))
  {
    if limit == 0 then 0
    else
      var k := GoodPrefix(fat, start, limit - 1);
      if k == limit - 1 && Good(fat, Walk(fat, start, k)) then limit else k
  }

  function Traverse(fat: seq<U16>, start: U16): Option<seq<U16>> {
    var k := GoodPrefix(fat, start, |fat|);
    if k == 0 || k > LONGEST || (k < |fat| && !Ends(Walk(fat, start, k))) then None
    else Some(Path(fat, start, k))
  }

  lemma GoodPrefixIs(fat: seq<U16>, start: U16, limit: nat, k: nat)
    requires k <= limit && AllGood(fat, start, k)
    requires k < limit ==> !Good(fat, Walk(fat, start, k))
    ensures GoodPrefix(fat, start, limit) == k
  {
    var g := GoodPrefix(fat, start, limit);
    var c := Walk(fat, start, g);
    assert g < k ==> Good(fat, c);
    assert k < g ==> Good(fat, Walk(fat, start, k));
  }

  /** A chain shorter than the table comes back exactly when the walk from a cluster that is not
      itself an end mark reaches an end mark through good clusters; it is that walk, without
      repetition. */
  lemma ShortIffEnds(fat: seq<U16>, start: U16)
    ensures (Traverse(fat, start).Some? && |Traverse(fat, start).value| < |fat|)
       <==> exists k: nat :: 0 < k <= LONGEST && EndsAfter(fat, start, k)
    ensures forall k: nat :: 0 < k <= LONGEST && EndsAfter(fat, start, k) ==>
              Traverse(fat, start) == Some(Path(fat, start, k)) && Distinct(Path(fat, start, k))
  {
    forall k: nat | 0 < k <= LONGEST && EndsAfter(fat, start, k)
      ensures k < |fat| && Traverse(fat, start) == Some(Path(fat, start, k))
      ensures Distinct(Path(fat, start, k))
    {
      EndedDistinct(fat, start, k);
      GoodPrefixIs(fat, start, |fat|, k);
    }
    if Traverse(fat, start).Some? && |Traverse(fat, start).value| < |fat| {
      var k := GoodPrefix(fat, start, |fat|);
      assert EndsAfter(fat, start, k);
    }
  }

  /** A chain with as many clusters as the table has entries comes back exactly when the walk goes
      round for ever, and the table is small enough for the chain's array. */
  lemma FullIffCycles(fat: seq<U16>, start: U16)
    ensures (Traverse(fat, start).Some? && |Traverse(fat, start).value| == |fat|)
       <==> (Cycles(fat, start) && |fat| <= LONGEST)
    ensures Cycles(fat, start) && |fat| <= LONGEST ==>
              Traverse(fat, start) == Some(Path(fat, start, |fat|))
  {
    if Cycles(fat, start) {
      assert Good(fat, Walk(fat, start, 0));
      GoodPrefixIs(fat, start, |fat|, |fat|);
    }
    if Traverse(fat, start).Some? && |Traverse(fat, start).value| == |fat| {
      TooLongCycles(fat, start);
    }
  }

  /** NULL comes back exactly in the remaining cases: the start is an end mark, the walk runs into a
      free, bad or out-of-range cluster, or the chain is too long for its array. */
  lemma NullIffBroken(fat: seq<U16>, start: U16)
    ensures Traverse(fat, start).None?
       <==> (|| Ends(start)
             || (exists k: nat :: !Ends(Walk(fat, start, k)) && !Good(fat, Walk(fat, start, k)))
             || (exists k: nat :: k > LONGEST && EndsAfter(fat, start, k))
             || (Cycles(fat, start) && |fat| > LONGEST))
  {
    var k := GoodPrefix(fat, start, |fat|);
    if Cycles(fat, start) {
      FullIffCycles(fat, start);
      assert Good(fat, Walk(fat, start, 0));
      GoodPrefixIs(fat, start, |fat|, |fat|);
    } else if k == |fat| && k > 0 {
      TooLongCycles(fat, start);
    } else {
      assert !Good(fat, Walk(fat, start, k));
      Stuck(fat, start, k);
      if k > 0 && Ends(Walk(fat, start, k)) {
        assert EndsAfter(fat, start, k);
        assert Good(fat, Walk(fat, start, 0));
        forall j: nat
          ensures Ends(Walk(fat, start, j)) || Good(fat, Walk(fat, start, j))
          ensures EndsAfter(fat, start, j) ==> j == k
        {
          if j < k {
            assert Good(fat, Walk(fat, start, j));
          }
        }
      }
    }
  }

  /** Past a cluster it cannot pass, the walk stays. */
  lemma Stuck(fat: seq<U16>, start: U16, k: nat)
    requires !Good(fat, Walk(fat, start, k))
    ensures forall j: nat :: j >= k ==> Walk(fat, start, j) == Walk(fat, start, k)
  {
    forall j: nat | j >= k
      ensures Walk(fat, start, j) == Walk(fat, start, k)
    {
      StuckAt(fat, start, k, j);
    }
  }

  lemma {:induction false} StuckAt(fat: seq<U16>, start: U16, k: nat, j: nat)
    requires k <= j && !Good(fat, Walk(fat, start, k))
    ensures Walk(fat, start, j) == Walk(fat, start, k)
  {
    if k < j {
      StuckAt(fat, start, k, j - 1);
    }
  }

  /** From `start` a chain of `n` clusters comes back: it ends properly, or it goes round for ever and is
      cut at the number of the table's entries. */
  ghost predicate IsChain(fat: seq<U16>, start: U16, n: nat) {
    0 < n <= LONGEST && (EndsAfter(fat, start, n) || (Cycles(fat, start) && n == |fat|))
  }

  lemma ChainIs(fat: seq<U16>, start: U16, n: nat)
    requires IsChain(fat, start, n)
    ensures Traverse(fat, start) == Some(Path(fat, start, n))
  {
    ShortIffEnds(fat, start);
    FullIffCycles(fat, start);
  }

  lemma ChainOf(fat: seq<U16>, start: U16)
    ensures Traverse(fat, start).Some? ==>
      var chain := Traverse(fat, start).value;
      IsChain(fat, start, |chain|) && chain == Path(fat, start, |chain|)
  {
    ShortIffEnds(fat, start);
    FullIffCycles(fat, start);
  }

  /** The marks of the table: 0 is free, 0xFFF7 bad, and from 0xFFF8 on a chain ends. */
  lemma MarksAre(fat: seq<U16>, c: U16)
    ensures Ends(c) <==> 0xFFF8 <= c <= 0xFFFF
    ensures Good(fat, c) <==> 0x0001 <= c <= 0xFFF6 && c < |fat|
  {
  }

  /** An entry without clusters, such as `..` to the root, has no chain in any table. */
  lemma ClusterZeroIsNull(fat: seq<U16>)
    ensures Traverse(fat, FREE_CLUSTER) == None
  {
    assert !Good(fat, Walk(fat, FREE_CLUSTER, 0));
    NullIffBroken(fat, FREE_CLUSTER);
  }

  /** Every cluster of a chain is marked as in use: its entry links on or ends the chain. */
  lemma ChainInUse(fat: seq<U16>, start: U16, chain: seq<U16>, i: nat)
    requires Traverse(fat, start) == Some(chain) && i < |chain|
    ensures chain[i] < |fat| && fat[chain[i]] != FREE_CLUSTER
  {
    var k := |chain|;
    assert Good(fat, Walk(fat, start, i));
    assert fat[chain[i]] == Walk(fat, start, i + 1);
    if i + 1 < k {
      assert Good(fat, Walk(fat, start, i + 1));
    } else if k == |fat| {
      FullIffCycles(fat, start);
      assert Good(fat, Walk(fat, start, i + 1));
    }
  }

  /** A table whose cluster 2 links to itself: the chain is as long as the table, and no error. */
  lemma CycleComesBack()
    ensures Cycles([0, 0, 2], 2) && Traverse([0, 0, 2], 2) == Some([2, 2, 2])
  {
    var fat: seq<U16> := [0, 0, 2];
    forall i: nat
      ensures Walk(fat, 2, i) == 2
    {
      StaysAtTwo(fat, i);
    }
    assert forall i: nat :: Good(fat, Walk(fat, 2, i));
    FullIffCycles(fat, 2);
    assert Path(fat, 2, 3) == [2, 2, 2];
  }

  lemma {:induction false} StaysAtTwo(fat: seq<U16>, i: nat)
    requires fat == [0, 0, 2]
    ensures Walk(fat, 2, i) == 2
  {
    if i > 0 {
      StaysAtTwo(fat, i - 1);
    }
  }

  // ---------- the code ----------

  /** `traverse_chain`; allocations of a non-zero size succeed, and the size passed to `realloc` is
      cut to 16 bits. */
  method TraverseChain(fat: seq<U16>, start: U16) returns (chain: Option<seq<U16>>)
    ensures chain == Traverse(fat, start)
  {
    var current := start;
    var clusters: seq<U16> := [];
    while current < EOC_START && |clusters| < |fat|
      invariant |clusters| <= |fat| && |clusters| <= LONGEST
      invariant AllGood(fat, start, |clusters|)
      invariant current == Walk(fat, start, |clusters|)
      invariant clusters == Path(fat, start, |clusters|)
      decreases |fat| - |clusters|
    {
      if current == BAD_CLUSTER || current == FREE_CLUSTER {
        GoodPrefixIs(fat, start, |fat|, |clusters|);
        return None;
      }
      if current >= |fat| {
        GoodPrefixIs(fat, start, |fat|, |clusters|);
        return None;
      }
      var bytes: U16 := (|clusters| + 1) * 2 % LIMIT16;
      if bytes == 0 {
        ghost var k := GoodPrefix(fat, start, |fat|);
        assert AllGood(fat, start, LONGEST + 1);
        ghost var c := Walk(fat, start, k);
        assert k <= LONGEST ==> Good(fat, c);
        return None;
      }
      clusters := clusters + [current];
      current := fat[current];
      assert current == Walk(fat, start, |clusters|);
    }
    GoodPrefixIs(fat, start, |fat|, |clusters|);
    if |clusters| == 0 {
      return None;
    }
    return Some(clusters);
  }
}
