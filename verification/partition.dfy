/**
 * Partitions of the states 0 .. n-1 into numbered blocks, as used by the
 * minimiser: a list of non-empty, pairwise disjoint sets whose union is every
 * state. A state's block number is the index of the first block holding it.
 */
module Partitions {
  import opened Wrappers
  import opened Seqs

  /** The index of the first block of part, from index i on, that holds x. */
  function BlockFrom(part: seq<set<int>>, x: int, i: nat): (r: Option<nat>)
    ensures r.Some? ==> i <= r.value < |part| && x in part[r.value]
    ensures r.Some? ==> forall j :: i <= j < r.value ==> x !in part[j]
    ensures r.None? <==> forall j :: i <= j < |part| ==> x !in part[j]
    decreases |part| - i
  {
    if i >= |part| then None
    else if x in part[i] then Some(i)
    else BlockFrom(part, x, i + 1)
  }

  /** The index of the first block that holds x, if any. */
  function BlockOf(part: seq<set<int>>, x: int): (r: Option<nat>)
    ensures r.Some? ==> r.value < |part| && x in part[r.value]
    ensures r.Some? ==> forall j :: 0 <= j < r.value ==> x !in part[j]
    ensures r.None? <==> forall j :: 0 <= j < |part| ==> x !in part[j]
  {
    BlockFrom(part, x, 0)
  }

  /** Every state of some block. */
  function UnionOf(part: seq<set<int>>): (r: set<int>)
    ensures forall x :: x in r <==> exists i :: 0 <= i < |part| && x in part[i]
  {
    set i, x | 0 <= i < |part| && x in part[i] :: x
  }

  ghost predicate NonEmpty(part: seq<set<int>>)
  {
    forall i :: 0 <= i < |part| ==> part[i] != {}
  }

  /** No state is in two blocks. */
  ghost predicate Disjoint(part: seq<set<int>>)
  {
    forall i, j, x :: 0 <= i < |part| && 0 <= j < |part| && x in part[i] && x in part[j] ==> i == j
  }

  /** part splits the states 0 .. n-1 into non-empty disjoint blocks. */
  ghost predicate IsPartition(part: seq<set<int>>, n: int)
  {
    NonEmpty(part) && Disjoint(part) && UnionOf(part) == Range(n)
  }

  /** In a disjoint list, x is in block i exactly when i is its block number. */
  lemma BlockOfUnique(part: seq<set<int>>, x: int, i: int)
    requires Disjoint(part) && 0 <= i < |part|
    ensures x in part[i] <==> BlockOf(part, x) == Some(i)
  {
  }

  /** Non-empty disjoint blocks hold at least as many states as there are blocks. */
  lemma {:induction false} UnionSize(part: seq<set<int>>)
    requires NonEmpty(part) && Disjoint(part)
    ensures |UnionOf(part)| >= |part|
    decreases |part|
  {
    if part != [] {
      var rest := part[..|part| - 1];
      var last := part[|part| - 1];
      PrefixBlocks(part);
      UnionSize(rest);
      UnionSnoc(part);
      assert UnionOf(rest) * last == {};
    }
  }

  /** Dropping the last block keeps the blocks non-empty and disjoint, and apart from the last one. */
  lemma PrefixBlocks(part: seq<set<int>>)
    requires NonEmpty(part) && Disjoint(part) && part != []
    ensures NonEmpty(part[..|part| - 1]) && Disjoint(part[..|part| - 1])
    ensures part[|part| - 1] != {}
    ensures UnionOf(part[..|part| - 1]) * part[|part| - 1] == {}
  {
    var rest := part[..|part| - 1];
    var last := part[|part| - 1];
    forall x | x in UnionOf(rest) ensures x !in last {
      var j :| 0 <= j < |rest| && x in rest[j];
      assert rest[j] == part[j];
    }
    var both := UnionOf(rest) * last;
    assert forall x :: x !in both;
  }

  /** The union of a list is the union of all but its last block, plus that block. */
  lemma UnionSnoc(part: seq<set<int>>)
    requires part != []
    ensures UnionOf(part) == UnionOf(part[..|part| - 1]) + part[|part| - 1]
  {
    var rest := part[..|part| - 1];
    var last := part[|part| - 1];
    assert part == rest + [last];
    UnionConcat(rest, [last]);
    assert UnionOf([last]) == last;
  }

  /** A partition of 0 .. n-1 has at most n blocks. */
  lemma PartitionSize(part: seq<set<int>>, n: nat)
    requires IsPartition(part, n)
    ensures |part| <= n
  {
    UnionSize(part);
  }

  /** The union of a concatenation is the union of the unions. */
  lemma UnionConcat(l1: seq<set<int>>, l2: seq<set<int>>)
    ensures UnionOf(l1 + l2) == UnionOf(l1) + UnionOf(l2)
  {
    var l := l1 + l2;
    forall x | x in UnionOf(l) ensures x in UnionOf(l1) + UnionOf(l2) {
      var i :| 0 <= i < |l| && x in l[i];
      if i >= |l1| {
        assert l[i] == l2[i - |l1|];
      }
    }
    forall x | x in UnionOf(l1) ensures x in UnionOf(l) {
      var i :| 0 <= i < |l1| && x in l1[i];
      assert l[i] == l1[i];
    }
    forall x | x in UnionOf(l2) ensures x in UnionOf(l) {
      var i :| 0 <= i < |l2| && x in l2[i];
      assert l[i + |l1|] == l2[i];
    }
  }

  /** Replacing the head block by pieces with the same union, and the tail by a list with the same union, keeps the union. */
  lemma UnionCons(s: seq<set<int>>, t: seq<set<int>>, blocks: seq<set<int>>)
    requires blocks != [] && UnionOf(s) == blocks[0] && UnionOf(t) == UnionOf(blocks[1..])
    ensures UnionOf(s + t) == UnionOf(blocks)
  {
    UnionConcat(s, t);
    assert blocks == [blocks[0]] + blocks[1..];
    UnionConcat([blocks[0]], blocks[1..]);
    assert UnionOf([blocks[0]]) == blocks[0];
  }

  /** Lists with disjoint unions concatenate into a disjoint list. */
  lemma DisjointConcat(l1: seq<set<int>>, l2: seq<set<int>>)
    requires Disjoint(l1) && Disjoint(l2) && UnionOf(l1) * UnionOf(l2) == {}
    ensures Disjoint(l1 + l2)
  {
    var l := l1 + l2;
    assert forall k :: 0 <= k < |l1| ==> l[k] == l1[k];
    assert forall k :: |l1| <= k < |l| ==> l[k] == l2[k - |l1|];
    forall i, j, x | 0 <= i < |l| && 0 <= j < |l| && x in l[i] && x in l[j]
      ensures i == j
    {
      if i < |l1| {
        assert x in UnionOf(l1) && x !in UnionOf(l1) * UnionOf(l2);
        assert x !in UnionOf(l2);
        assert j < |l1|;
      } else {
        assert x in UnionOf(l2) && x !in UnionOf(l1) * UnionOf(l2);
        assert x !in UnionOf(l1);
        assert j >= |l1|;
      }
    }
  }

  /** part with blocks i and j exchanged. */
  function Swap(part: seq<set<int>>, i: nat, j: nat): (r: seq<set<int>>)
    requires i < |part| && j < |part|
    ensures |r| == |part| && r[i] == part[j] && r[j] == part[i]
    ensures forall k :: 0 <= k < |part| && k != i && k != j ==> r[k] == part[k]
  {
    part[i := part[j]][j := part[i]]
  }

  /** The block number k after exchanging blocks i and j. */
  function Swapped(k: nat, i: nat, j: nat): nat
  {
    if k == i then j else if k == j then i else k
  }

  lemma SwapDisjoint(part: seq<set<int>>, i: nat, j: nat)
    requires Disjoint(part) && i < |part| && j < |part|
    ensures Disjoint(Swap(part, i, j))
  {
    var s := Swap(part, i, j);
    forall k, l, y | 0 <= k < |s| && 0 <= l < |s| && y in s[k] && y in s[l]
      ensures k == l
    {
      assert s[k] == part[Swapped(k, i, j)] && s[l] == part[Swapped(l, i, j)];
    }
  }

  lemma SwapUnion(part: seq<set<int>>, i: nat, j: nat)
    requires i < |part| && j < |part|
    ensures UnionOf(Swap(part, i, j)) == UnionOf(part)
    ensures NonEmpty(part) ==> NonEmpty(Swap(part, i, j))
  {
    var s := Swap(part, i, j);
    forall y | y in UnionOf(part) ensures y in UnionOf(s) {
      var k :| 0 <= k < |part| && y in part[k];
      assert s[Swapped(k, i, j)] == part[k];
    }
    forall y | y in UnionOf(s) ensures y in UnionOf(part) {
      var k :| 0 <= k < |s| && y in s[k];
      assert s[k] == part[Swapped(k, i, j)];
    }
  }

  /** Exchanging two blocks keeps a partition a partition and exchanges the two block numbers. */
  lemma SwapPartition(part: seq<set<int>>, n: int, i: nat, j: nat, x: int)
    requires IsPartition(part, n) && i < |part| && j < |part|
    ensures IsPartition(Swap(part, i, j), n)
    ensures BlockOf(Swap(part, i, j), x)
         == match BlockOf(part, x)
            case None => None
            case Some(k) => Some(Swapped(k, i, j))
  {
    SwapDisjoint(part, i, j);
    SwapUnion(part, i, j);
    SwapBlockOf(part, i, j, x);
  }

  /** In a disjoint list, exchanging two blocks exchanges their block numbers. */
  lemma SwapBlockOf(part: seq<set<int>>, i: nat, j: nat, x: int)
    requires Disjoint(part) && i < |part| && j < |part|
    ensures BlockOf(Swap(part, i, j), x)
         == match BlockOf(part, x)
            case None => None
            case Some(k) => Some(Swapped(k, i, j))
  {
    var s := Swap(part, i, j);
    SwapDisjoint(part, i, j);
    match BlockOf(part, x)
    case None =>
      forall k | 0 <= k < |s| ensures x !in s[k] {
        assert s[k] == part[Swapped(k, i, j)];
      }
    case Some(k) =>
      assert x in s[Swapped(k, i, j)];
      BlockOfUnique(s, x, Swapped(k, i, j));
  }
}
