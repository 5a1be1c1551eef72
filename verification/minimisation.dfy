/**
 * Minimisation of a complete deterministic automaton by partition refinement
 * (Moore's algorithm). The states start split into the final and the
 * non-final ones (empty blocks dropped). A pass gives every state the
 * signature of block numbers its letters lead to, splits each block by
 * signature (classes in order of first appearance), and keeps a block whole
 * when all its states agree; passes repeat until one splits nothing. The
 * quotient has one state per block: a block is final when it meets the old
 * finals, and its transition on c goes to the block of the c-successor of a
 * representative member.
 *
 * Python iterates over the members of a block in its own set order; the model
 * takes them in increasing order, which fixes the order of the split classes
 * and makes the representative the least member.
 */
module Minimisation {
  import opened Wrappers
  import opened Seqs
  import opened Automata
  import opened Language
  import opened Partitions

  /** The input the algorithm requires: well formed, deterministic and complete. */
  ghost predicate Dfa(a: Automaton)
  {
    WellFormed(a) && IsDeterministic(a) && IsComplete(a)
  }

  /** In such an automaton every state has exactly one successor per letter, itself a state. */
  lemma NextInRange(a: Automaton, q: int, c: char)
    requires Dfa(a) && 0 <= q < a.n && c in a.alphabet
    ensures 0 <= Next(a, q, c) < a.n && Dest(a, q, c) == [Next(a, q, c)]
  {
    DeterministicDest(a, q, c);
    DestWithin(a, 0, a.n, q, c);
  }

  /** Only letters are keys of a well-formed deterministic automaton. */
  lemma LetterKeys(a: Automaton, q: int, c: char)
    requires WellFormed(a) && IsDeterministic(a)
    ensures Has(a, q, c) ==> c in a.alphabet
  {
    LookupPresent(a.transition, q, c);
  }

  // Signatures and classes

  /**
   * The signature of q: for each letter of cs in order, the number of the first
   * block holding its successor (a successor in no block contributes nothing).
   */
  function Signature(a: Automaton, part: seq<set<int>>, q: int, cs: seq<char>): seq<nat>
    decreases |cs|
  {
    if cs == [] then []
    else
      var head := match BlockOf(part, Next(a, q, cs[0])) case Some(i) => [i] case None => [];
      head + Signature(a, part, q, cs[1..])
  }

  /** When every successor is in some block, entry j of the signature is the block of the j-th successor. */
  lemma {:induction false} SignatureAt(a: Automaton, part: seq<set<int>>, q: int, cs: seq<char>)
    requires forall j :: 0 <= j < |cs| ==> BlockOf(part, Next(a, q, cs[j])).Some?
    ensures |Signature(a, part, q, cs)| == |cs|
    ensures forall j :: 0 <= j < |cs| ==> Signature(a, part, q, cs)[j] == BlockOf(part, Next(a, q, cs[j])).value
    decreases |cs|
  {
    if cs != [] {
      SignatureAt(a, part, q, cs[1..]);
      var s := Signature(a, part, q, cs);
      assert s == [BlockOf(part, Next(a, q, cs[0])).value] + Signature(a, part, q, cs[1..]);
    }
  }

  /** A class under construction: the states met so far with signature key. */
  datatype Group<K> = Group(key: K, members: set<int>)

  /** The keys of a dictionary are distinct. */
  predicate DistinctKeys<K(==)>(groups: seq<Group<K>>)
  {
    forall i, j :: 0 <= i < j < |groups| ==> groups[i].key != groups[j].key
  }

  /** The position of the first class with key, from position i on, or |groups| when there is none. */
  function KeyIndex<K(==)>(groups: seq<Group<K>>, key: K, i: nat): (r: nat)
    requires i <= |groups|
    ensures i <= r <= |groups|
    ensures r < |groups| ==> groups[r].key == key
    ensures forall j :: i <= j < r ==> groups[j].key != key
    decreases |groups| - i
  {
    if i == |groups| || groups[i].key == key then i else KeyIndex(groups, key, i + 1)
  }

  /** Adds q to the class of key, creating the class at the end when key is new. */
  function AddMember<K(==)>(groups: seq<Group<K>>, key: K, q: int): seq<Group<K>>
  {
    var k := KeyIndex(groups, key, 0);
    if k < |groups| then groups[k := Group(key, groups[k].members + {q})]
    else groups + [Group(key, {q})]
  }

  /**
   * Adding to a dictionary with distinct keys: the keys stay distinct, q joins
   * the class of key, and a class is appended exactly when key is new.
   */
  lemma AddMemberSpec<K>(groups: seq<Group<K>>, key: K, q: int)
    requires DistinctKeys(groups)
    ensures var r := AddMember(groups, key, q);
      && DistinctKeys(r)
      && |groups| <= |r| <= |groups| + 1
      && (forall j :: 0 <= j < |groups| ==> r[j].key == groups[j].key)
      && (forall j :: 0 <= j < |groups| ==>
            r[j].members == if groups[j].key == key then groups[j].members + {q} else groups[j].members)
      && (|r| == |groups| + 1 <==> forall j :: 0 <= j < |groups| ==> groups[j].key != key)
      && (|r| == |groups| + 1 ==> r[|groups|] == Group(key, {q}))
  {
    var k := KeyIndex(groups, key, 0);
    if k < |groups| {
      forall j | 0 <= j < |groups| && groups[j].key == key ensures j == k {
      }
    }
  }

  /** Files each state of qs, in order, under its signature. */
  function Classify(a: Automaton, part: seq<set<int>>, qs: seq<int>, groups: seq<Group<seq<nat>>>): seq<Group<seq<nat>>>
    decreases |qs|
  {
    if qs == [] then groups
    else Classify(a, part, qs[1..], AddMember(groups, Signature(a, part, qs[0], a.alphabet), qs[0]))
  }

  /** The classes of block e: its states grouped by signature, in order of first appearance. */
  function Classes(a: Automaton, part: seq<set<int>>, e: set<int>): (r: seq<set<int>>)
  {
    Members(Classify(a, part, Enumerate(e, 0, a.n), []))
  }

  /** The member sets of a dictionary, in order. */
  function Members<K>(groups: seq<Group<K>>): (r: seq<set<int>>)
    ensures |r| == |groups| && forall j :: 0 <= j < |groups| ==> r[j] == groups[j].members
  {
    seq(|groups|, j requires 0 <= j < |groups| => groups[j].members)
  }

  /** groups files exactly the states of done, each under its own signature, in non-empty classes. */
  ghost predicate Grouped(a: Automaton, part: seq<set<int>>, groups: seq<Group<seq<nat>>>, done: set<int>)
  {
    && DistinctKeys(groups)
    && (forall j :: 0 <= j < |groups| ==> groups[j].members != {})
    && (forall j, q :: 0 <= j < |groups| && q in groups[j].members ==>
          q in done && Signature(a, part, q, a.alphabet) == groups[j].key)
    && (forall q :: q in done ==> exists j :: 0 <= j < |groups| && q in groups[j].members)
  }

  lemma AddMemberFiled(a: Automaton, part: seq<set<int>>, groups: seq<Group<seq<nat>>>, done: set<int>, q: int)
    requires Grouped(a, part, groups, done)
    ensures var r := AddMember(groups, Signature(a, part, q, a.alphabet), q);
      forall j, p :: 0 <= j < |r| && p in r[j].members ==>
        p in done + {q} && Signature(a, part, p, a.alphabet) == r[j].key
  {
    var key := Signature(a, part, q, a.alphabet);
    AddMemberSpec(groups, key, q);
    var r := AddMember(groups, key, q);
    forall j, p | 0 <= j < |r| && p in r[j].members
      ensures p in done + {q} && Signature(a, part, p, a.alphabet) == r[j].key
    {
      if j < |groups| {
        assert r[j].key == groups[j].key;
        if p != q || groups[j].key != key {
          assert p in groups[j].members;
        }
      } else {
        assert r[j] == Group(key, {q});
      }
    }
  }

  lemma AddMemberCovers(a: Automaton, part: seq<set<int>>, groups: seq<Group<seq<nat>>>, done: set<int>, q: int)
    requires Grouped(a, part, groups, done)
    ensures var r := AddMember(groups, Signature(a, part, q, a.alphabet), q);
      && (forall j :: 0 <= j < |r| ==> r[j].members != {})
      && (forall p :: p in done + {q} ==> exists j :: 0 <= j < |r| && p in r[j].members)
  {
    var key := Signature(a, part, q, a.alphabet);
    AddMemberSpec(groups, key, q);
    var r := AddMember(groups, key, q);
    forall j | 0 <= j < |r| ensures r[j].members != {} {
      if j < |groups| {
        assert groups[j].members <= r[j].members;
      } else {
        assert q in r[j].members;
      }
    }
    forall p | p in done + {q}
      ensures exists j :: 0 <= j < |r| && p in r[j].members
    {
      if p == q {
        if |r| == |groups| + 1 {
          assert q in r[|groups|].members;
        } else {
          var j :| 0 <= j < |groups| && groups[j].key == key;
          assert q in r[j].members;
        }
      } else {
        var j :| 0 <= j < |groups| && p in groups[j].members;
        assert p in r[j].members;
      }
    }
  }

  lemma AddMemberGrouped(a: Automaton, part: seq<set<int>>, groups: seq<Group<seq<nat>>>, done: set<int>, q: int)
    requires Grouped(a, part, groups, done)
    ensures Grouped(a, part, AddMember(groups, Signature(a, part, q, a.alphabet), q), done + {q})
  {
    AddMemberSpec(groups, Signature(a, part, q, a.alphabet), q);
    AddMemberFiled(a, part, groups, done, q);
    AddMemberCovers(a, part, groups, done, q);
  }

  lemma {:induction false} ClassifyGrouped(a: Automaton, part: seq<set<int>>, qs: seq<int>, groups: seq<Group<seq<nat>>>, done: set<int>)
    requires Grouped(a, part, groups, done)
    ensures Grouped(a, part, Classify(a, part, qs, groups), done + ToSet(qs))
    decreases |qs|
  {
    if qs == [] {
      assert done + ToSet(qs) == done;
    } else {
      var q := qs[0];
      AddMemberGrouped(a, part, groups, done, q);
      ClassifyGrouped(a, part, qs[1..], AddMember(groups, Signature(a, part, q, a.alphabet), q), done + {q});
      assert done + ToSet(qs) == (done + {q}) + ToSet(qs[1..]);
    }
  }

  /** The classes of a block split it: non-empty, disjoint, covering it, each of one signature. */
  lemma ClassesSplit(a: Automaton, part: seq<set<int>>, e: set<int>)
    requires e <= Range(a.n)
    ensures NonEmpty(Classes(a, part, e)) && Disjoint(Classes(a, part, e))
    ensures UnionOf(Classes(a, part, e)) == e
    ensures forall j, q, q' :: 0 <= j < |Classes(a, part, e)| && q in Classes(a, part, e)[j] && q' in Classes(a, part, e)[j]
              ==> Signature(a, part, q, a.alphabet) == Signature(a, part, q', a.alphabet)
  {
    var groups := Classify(a, part, Enumerate(e, 0, a.n), []);
    ClassesGrouped(a, part, e);
    GroupedDisjoint(a, part, groups, e);
    GroupedUnion(a, part, groups, e);
    GroupedSame(a, part, groups, e);
  }

  /** The dictionary built for block e files exactly e's states. */
  lemma ClassesGrouped(a: Automaton, part: seq<set<int>>, e: set<int>)
    requires e <= Range(a.n)
    ensures Grouped(a, part, Classify(a, part, Enumerate(e, 0, a.n), []), e)
  {
    var qs := Enumerate(e, 0, a.n);
    assert Grouped(a, part, [], {});
    ClassifyGrouped(a, part, qs, [], {});
    assert {} + ToSet(qs) == e;
  }

  lemma GroupedDisjoint(a: Automaton, part: seq<set<int>>, groups: seq<Group<seq<nat>>>, done: set<int>)
    requires Grouped(a, part, groups, done)
    ensures NonEmpty(Members(groups)) && Disjoint(Members(groups))
  {
    var cl := Members(groups);
    forall j, k, q | 0 <= j < |cl| && 0 <= k < |cl| && q in cl[j] && q in cl[k]
      ensures j == k
    {
      assert groups[j].key == Signature(a, part, q, a.alphabet) == groups[k].key;
    }
  }

  lemma GroupedUnion(a: Automaton, part: seq<set<int>>, groups: seq<Group<seq<nat>>>, done: set<int>)
    requires Grouped(a, part, groups, done)
    ensures UnionOf(Members(groups)) == done
  {
    var cl := Members(groups);
    forall x | x in done ensures x in UnionOf(cl) {
      var j :| 0 <= j < |groups| && x in groups[j].members;
      assert x in cl[j];
    }
  }

  lemma GroupedSame(a: Automaton, part: seq<set<int>>, groups: seq<Group<seq<nat>>>, done: set<int>)
    requires Grouped(a, part, groups, done)
    ensures forall j, q, q' :: 0 <= j < |Members(groups)| && q in Members(groups)[j] && q' in Members(groups)[j]
              ==> Signature(a, part, q, a.alphabet) == Signature(a, part, q', a.alphabet)
  {
  }

  /** A block with at most one class has all its states of one signature. */
  lemma ClassesOne(a: Automaton, part: seq<set<int>>, e: set<int>, q: int, q': int)
    requires e <= Range(a.n) && |Classes(a, part, e)| <= 1 && q in e && q' in e
    ensures Signature(a, part, q, a.alphabet) == Signature(a, part, q', a.alphabet)
  {
    ClassesSplit(a, part, e);
    var cl := Classes(a, part, e);
    assert q in UnionOf(cl) && q' in UnionOf(cl);
  }

  // Refinement

  /**
   * One pass over blocks: each block with more than one class is replaced by
   * its classes, the others are kept; the flag says whether a block was split.
   */
  function Pass(a: Automaton, part: seq<set<int>>, blocks: seq<set<int>>): (seq<set<int>>, bool)
    decreases |blocks|
  {
    if blocks == [] then ([], false)
    else
      var classes := Classes(a, part, blocks[0]);
      var rest := Pass(a, part, blocks[1..]);
      if |classes| > 1 then (classes + rest.0, true) else ([blocks[0]] + rest.0, rest.1)
  }

  /** Every block lies within the states. */
  ghost predicate InRange(blocks: seq<set<int>>, n: int)
  {
    forall i :: 0 <= i < |blocks| ==> blocks[i] <= Range(n)
  }

  /** What a pass puts in place of block e: its classes when there are several, else e itself. */
  function Split(a: Automaton, part: seq<set<int>>, e: set<int>): seq<set<int>>
  {
    if |Classes(a, part, e)| > 1 then Classes(a, part, e) else [e]
  }

  lemma PassUnfold(a: Automaton, part: seq<set<int>>, blocks: seq<set<int>>)
    requires blocks != []
    ensures Pass(a, part, blocks).0 == Split(a, part, blocks[0]) + Pass(a, part, blocks[1..]).0
  {
  }

  /** Splitting a non-empty block gives non-empty disjoint pieces of it that cover it. */
  lemma SplitFacts(a: Automaton, part: seq<set<int>>, e: set<int>)
    requires e <= Range(a.n) && e != {}
    ensures Split(a, part, e) != [] && NonEmpty(Split(a, part, e)) && Disjoint(Split(a, part, e))
    ensures UnionOf(Split(a, part, e)) == e
    ensures forall i :: 0 <= i < |Split(a, part, e)| ==> Split(a, part, e)[i] <= e
  {
    ClassesSplit(a, part, e);
    var s := Split(a, part, e);
    if |Classes(a, part, e)| <= 1 {
      assert s == [e] && s[0] == e;
    }
    forall i | 0 <= i < |s| ensures s[i] <= e {
      assert s[i] <= UnionOf(s);
    }
  }

  lemma {:induction false} PassUnion(a: Automaton, part: seq<set<int>>, blocks: seq<set<int>>)
    requires InRange(blocks, a.n) && NonEmpty(blocks)
    ensures UnionOf(Pass(a, part, blocks).0) == UnionOf(blocks)
    decreases |blocks|
  {
    if blocks != [] {
      var tail := blocks[1..];
      assert InRange(tail, a.n) && NonEmpty(tail);
      PassUnion(a, part, tail);
      PassUnfold(a, part, blocks);
      SplitFacts(a, part, blocks[0]);
      UnionCons(Split(a, part, blocks[0]), Pass(a, part, tail).0, blocks);
    }
  }

  lemma {:induction false} PassNonEmpty(a: Automaton, part: seq<set<int>>, blocks: seq<set<int>>)
    requires InRange(blocks, a.n) && NonEmpty(blocks)
    ensures NonEmpty(Pass(a, part, blocks).0)
    ensures blocks != [] ==> Pass(a, part, blocks).0 != [] && Pass(a, part, blocks).0[0] <= blocks[0]
    decreases |blocks|
  {
    if blocks != [] {
      var tail := blocks[1..];
      assert InRange(tail, a.n) && NonEmpty(tail);
      PassNonEmpty(a, part, tail);
      PassUnfold(a, part, blocks);
      SplitFacts(a, part, blocks[0]);
      var h := Split(a, part, blocks[0]);
      var r := Pass(a, part, blocks).0;
      forall i | 0 <= i < |r| ensures r[i] != {} {
        if i < |h| {
          assert r[i] == h[i];
        } else {
          assert r[i] == Pass(a, part, tail).0[i - |h|];
        }
      }
      assert r[0] == h[0];
    }
  }

  /** Every block after a pass lies inside some block before it. */
  lemma {:induction false} PassWithin(a: Automaton, part: seq<set<int>>, blocks: seq<set<int>>)
    requires InRange(blocks, a.n) && NonEmpty(blocks)
    ensures forall i :: 0 <= i < |Pass(a, part, blocks).0| ==>
              exists j :: 0 <= j < |blocks| && Pass(a, part, blocks).0[i] <= blocks[j]
    decreases |blocks|
  {
    if blocks != [] {
      var tail := blocks[1..];
      assert InRange(tail, a.n) && NonEmpty(tail);
      PassWithin(a, part, tail);
      PassUnfold(a, part, blocks);
      SplitFacts(a, part, blocks[0]);
      var h := Split(a, part, blocks[0]);
      var rest := Pass(a, part, tail).0;
      var r := Pass(a, part, blocks).0;
      forall i | 0 <= i < |r|
        ensures exists j :: 0 <= j < |blocks| && r[i] <= blocks[j]
      {
        if i < |h| {
          assert r[i] == h[i] && r[i] <= blocks[0];
        } else {
          assert r[i] == rest[i - |h|];
          var j :| 0 <= j < |tail| && rest[i - |h|] <= tail[j];
          assert tail[j] == blocks[j + 1];
        }
      }
    }
  }

  /** A pass keeps the blocks disjoint. */
  lemma {:induction false} PassDisjoint(a: Automaton, part: seq<set<int>>, blocks: seq<set<int>>)
    requires InRange(blocks, a.n) && NonEmpty(blocks) && Disjoint(blocks)
    ensures Disjoint(Pass(a, part, blocks).0)
    decreases |blocks|
  {
    if blocks != [] {
      var e := blocks[0];
      var tail := blocks[1..];
      assert Disjoint(tail) && NonEmpty(tail) && InRange(tail, a.n);
      PassDisjoint(a, part, tail);
      PassUnion(a, part, tail);
      PassUnfold(a, part, blocks);
      SplitFacts(a, part, e);
      forall x | x in e ensures x !in UnionOf(tail) {
        forall j | 0 <= j < |tail| ensures x !in tail[j] {
          assert tail[j] == blocks[j + 1];
        }
      }
      DisjointConcat(Split(a, part, e), Pass(a, part, tail).0);
    }
  }

  /** A pass never loses a block, gains one when it splits, and changes nothing when it does not. */
  lemma {:induction false} PassCount(a: Automaton, part: seq<set<int>>, blocks: seq<set<int>>)
    requires InRange(blocks, a.n) && NonEmpty(blocks)
    ensures |Pass(a, part, blocks).0| >= |blocks|
    ensures Pass(a, part, blocks).1 ==> |Pass(a, part, blocks).0| > |blocks|
    ensures !Pass(a, part, blocks).1 ==> Pass(a, part, blocks).0 == blocks
    ensures !Pass(a, part, blocks).1 ==> forall i :: 0 <= i < |blocks| ==> |Classes(a, part, blocks[i])| <= 1
    decreases |blocks|
  {
    if blocks != [] {
      assert NonEmpty(blocks[1..]) && InRange(blocks[1..], a.n);
      PassCount(a, part, blocks[1..]);
      if !Pass(a, part, blocks).1 {
        assert blocks == [blocks[0]] + blocks[1..];
        forall i | 0 <= i < |blocks| ensures |Classes(a, part, blocks[i])| <= 1 {
          if i > 0 {
            assert blocks[i] == blocks[1..][i - 1];
          }
        }
      }
    }
  }

  /** Passes repeat until one splits nothing; every pass that splits adds a block. */
  function Refine(a: Automaton, part: seq<set<int>>): (r: seq<set<int>>)
    requires IsPartition(part, a.n)
    ensures IsPartition(r, a.n) && |r| >= |part|
    decreases a.n - |part|
  {
    var pass := Pass(a, part, part);
    PassFacts(a, part);
    if pass.1 then
      PartitionSize(pass.0, a.n);
      Refine(a, pass.0)
    else pass.0
  }

  lemma PassFacts(a: Automaton, part: seq<set<int>>)
    requires IsPartition(part, a.n)
    ensures IsPartition(Pass(a, part, part).0, a.n)
    ensures |Pass(a, part, part).0| >= |part|
    ensures Pass(a, part, part).1 ==> |Pass(a, part, part).0| > |part|
    ensures !Pass(a, part, part).1 ==> Pass(a, part, part).0 == part
  {
    PartitionInRange(part, a.n);
    PassUnion(a, part, part);
    PassNonEmpty(a, part, part);
    PassDisjoint(a, part, part);
    PassCount(a, part, part);
  }

  /** Every block of a partition of the states lies within them. */
  lemma PartitionInRange(part: seq<set<int>>, n: int)
    requires IsPartition(part, n)
    ensures InRange(part, n)
  {
    forall i | 0 <= i < |part| ensures part[i] <= Range(n) {
      assert part[i] <= UnionOf(part);
    }
  }

  /** Refinement stops at a partition that a further pass would not split. */
  lemma RefineFixpoint(a: Automaton, part: seq<set<int>>)
    requires IsPartition(part, a.n)
    ensures !Pass(a, Refine(a, part), Refine(a, part)).1
    decreases a.n - |part|
  {
    var pass := Pass(a, part, part);
    PassFacts(a, part);
    if pass.1 {
      PartitionSize(pass.0, a.n);
      RefineFixpoint(a, pass.0);
    }
  }

  /** States in one block move to one block on every letter. */
  ghost predicate Stable(a: Automaton, part: seq<set<int>>)
  {
    forall q, q', c :: 0 <= q < a.n && 0 <= q' < a.n && BlockOf(part, q) == BlockOf(part, q') && c in a.alphabet
      ==> BlockOf(part, Next(a, q, c)) == BlockOf(part, Next(a, q', c))
  }

  /** Each successor of a state lies in some block of a partition of the states. */
  lemma SuccessorsPlaced(a: Automaton, part: seq<set<int>>, q: int)
    requires Dfa(a) && IsPartition(part, a.n) && 0 <= q < a.n
    ensures forall j :: 0 <= j < |a.alphabet| ==> BlockOf(part, Next(a, q, a.alphabet[j])).Some?
  {
    forall j | 0 <= j < |a.alphabet| ensures BlockOf(part, Next(a, q, a.alphabet[j])).Some? {
      NextInRange(a, q, a.alphabet[j]);
      assert Next(a, q, a.alphabet[j]) in UnionOf(part);
    }
  }

  /** At a partition no pass splits, two states of one block share their signature. */
  lemma FixpointSignature(a: Automaton, part: seq<set<int>>, q: int, q': int)
    requires IsPartition(part, a.n) && !Pass(a, part, part).1
    requires 0 <= q < a.n && 0 <= q' < a.n && BlockOf(part, q) == BlockOf(part, q')
    ensures Signature(a, part, q, a.alphabet) == Signature(a, part, q', a.alphabet)
  {
    PartitionInRange(part, a.n);
    PassCount(a, part, part);
    assert q in UnionOf(part);
    var i := BlockOf(part, q).value;
    ClassesOne(a, part, part[i], q, q');
  }

  /** States with one signature move to one block on every letter. */
  lemma SignatureStep(a: Automaton, part: seq<set<int>>, q: int, q': int, c: char)
    requires Dfa(a) && IsPartition(part, a.n) && 0 <= q < a.n && 0 <= q' < a.n && c in a.alphabet
    requires Signature(a, part, q, a.alphabet) == Signature(a, part, q', a.alphabet)
    ensures BlockOf(part, Next(a, q, c)) == BlockOf(part, Next(a, q', c))
  {
    SuccessorsPlaced(a, part, q);
    SuccessorsPlaced(a, part, q');
    SignatureAt(a, part, q, a.alphabet);
    SignatureAt(a, part, q', a.alphabet);
    var j :| 0 <= j < |a.alphabet| && a.alphabet[j] == c;
    assert Signature(a, part, q, a.alphabet)[j] == Signature(a, part, q', a.alphabet)[j];
  }

  /** A partition no pass splits is stable. */
  lemma FixpointStable(a: Automaton, part: seq<set<int>>)
    requires Dfa(a) && IsPartition(part, a.n) && !Pass(a, part, part).1
    ensures Stable(a, part)
  {
    forall q, q', c | 0 <= q < a.n && 0 <= q' < a.n && BlockOf(part, q) == BlockOf(part, q') && c in a.alphabet
      ensures BlockOf(part, Next(a, q, c)) == BlockOf(part, Next(a, q', c))
    {
      FixpointSignature(a, part, q, q');
      SignatureStep(a, part, q, q', c);
    }
  }

  /** The refined partition is stable: it is a congruence of the transition function. */
  lemma RefineStable(a: Automaton, part: seq<set<int>>)
    requires Dfa(a) && IsPartition(part, a.n)
    ensures Stable(a, Refine(a, part))
  {
    RefineFixpoint(a, part);
    FixpointStable(a, Refine(a, part));
  }

  /** Every block lies inside f or outside it. */
  ghost predicate Homogeneous(part: seq<set<int>>, f: set<int>)
  {
    forall i :: 0 <= i < |part| ==> part[i] <= f || part[i] * f == {}
  }

  /** A pass keeps every block inside or outside f. */
  lemma PassHomogeneous(a: Automaton, part: seq<set<int>>, f: set<int>)
    requires IsPartition(part, a.n) && Homogeneous(part, f)
    ensures Homogeneous(Pass(a, part, part).0, f)
  {
    var r := Pass(a, part, part).0;
    PartitionInRange(part, a.n);
    PassWithin(a, part, part);
    forall i | 0 <= i < |r| ensures r[i] <= f || r[i] * f == {} {
      var j :| 0 <= j < |part| && r[i] <= part[j];
    }
  }

  /** Refining a partition whose blocks each lie inside or outside f keeps it so. */
  lemma RefineHomogeneous(a: Automaton, part: seq<set<int>>, f: set<int>)
    requires IsPartition(part, a.n) && Homogeneous(part, f)
    ensures Homogeneous(Refine(a, part), f)
    decreases a.n - |part|
  {
    var pass := Pass(a, part, part);
    PassFacts(a, part);
    if pass.1 {
      PassHomogeneous(a, part, f);
      PartitionSize(pass.0, a.n);
      RefineHomogeneous(a, pass.0, f);
    }
  }

  /** Refinement only ever splits: the first block of the result lies in the first block given. */
  lemma RefineFirst(a: Automaton, part: seq<set<int>>)
    requires IsPartition(part, a.n) && part != []
    ensures Refine(a, part) != [] && Refine(a, part)[0] <= part[0]
    decreases a.n - |part|
  {
    var pass := Pass(a, part, part);
    PassFacts(a, part);
    PartitionInRange(part, a.n);
    PassNonEmpty(a, part, part);
    if pass.1 {
      PartitionSize(pass.0, a.n);
      RefineFirst(a, pass.0);
    }
  }

  /** The first partition: the final states, then the others, empty blocks dropped. */
  function InitialPartition(a: Automaton): seq<set<int>>
  {
    var f := ToSet(a.final);
    DropEmpty([f, Range(a.n) - f])
  }

  /** The blocks of blocks that are not empty, in order. */
  function DropEmpty(blocks: seq<set<int>>): (r: seq<set<int>>)
    ensures NonEmpty(r)
    decreases |blocks|
  {
    if blocks == [] then []
    else (if blocks[0] != {} then [blocks[0]] else []) + DropEmpty(blocks[1..])
  }

  /** Both blocks of the first partition, each kept only when non-empty. */
  lemma DropEmptyPair(f: set<int>, g: set<int>)
    ensures DropEmpty([f, g]) == (if f != {} then [f] else []) + (if g != {} then [g] else [])
  {
    assert [f, g][1..] == [g];
    assert [g][1..] == [];
    assert DropEmpty([g]) == (if g != {} then [g] else []) + DropEmpty([]);
  }

  /** Splitting the states into f and the rest, empty blocks dropped, is a partition each of whose blocks is inside or outside f. */
  lemma PairPartition(f: set<int>, n: int)
    requires f <= Range(n)
    ensures IsPartition(DropEmpty([f, Range(n) - f]), n)
    ensures Homogeneous(DropEmpty([f, Range(n) - f]), f)
  {
    var g := Range(n) - f;
    DropEmptyPair(f, g);
    var p := DropEmpty([f, g]);
    if f != {} && g != {} {
      assert p == [f, g];
      assert UnionOf(p) == Range(n) by {
        assert forall x :: x in Range(n) ==> x in p[0] || x in p[1];
      }
    } else if f != {} {
      assert p == [f];
      assert UnionOf(p) == f;
    } else if g != {} {
      assert p == [g];
      assert UnionOf(p) == g;
    } else {
      assert p == [];
    }
  }

  /** The first of the two blocks comes first when it is not empty; when it is empty, all states form one block. */
  lemma PairFirst(f: set<int>, n: int)
    requires f <= Range(n)
    ensures f != {} ==> DropEmpty([f, Range(n) - f]) != [] && DropEmpty([f, Range(n) - f])[0] == f
    ensures f == {} && n >= 1 ==> DropEmpty([f, Range(n) - f]) == [Range(n)]
  {
    DropEmptyPair(f, Range(n) - f);
    if f == {} && n >= 1 {
      assert Range(n) - f == Range(n);
      assert 0 in Range(n);
    }
  }

  /**
   * The first partition splits the states into finals and non-finals: a
   * partition, each block inside or outside the finals, the finals first when
   * there are any, and a single block of every state when there are none.
   */
  lemma InitialFacts(a: Automaton)
    requires IdsWithin(a, 0, a.n)
    ensures IsPartition(InitialPartition(a), a.n)
    ensures Homogeneous(InitialPartition(a), ToSet(a.final))
    ensures a.final != [] ==> InitialPartition(a) != [] && InitialPartition(a)[0] == ToSet(a.final)
    ensures a.final == [] && a.n >= 1 ==> InitialPartition(a) == [Range(a.n)]
  {
    var f := ToSet(a.final);
    assert f <= Range(a.n);
    PairPartition(f, a.n);
    PairFirst(f, a.n);
    if a.final != [] {
      assert a.final[0] in f;
    } else {
      assert f == {};
    }
  }

  // The block of the initial state

  /** Adding to a dictionary never removes a member of a class. */
  lemma AddMemberKeeps<K>(groups: seq<Group<K>>, key: K, q: int, j: int, x: int)
    requires 0 <= j < |groups| && x in groups[j].members
    ensures j < |AddMember(groups, key, q)| && x in AddMember(groups, key, q)[j].members
  {
  }

  /** A state filed in the first class stays there. */
  lemma {:induction false} ClassifyKeepsFirst(a: Automaton, part: seq<set<int>>, qs: seq<int>, groups: seq<Group<seq<nat>>>, x: int)
    requires groups != [] && x in groups[0].members
    ensures Classify(a, part, qs, groups) != [] && x in Classify(a, part, qs, groups)[0].members
    decreases |qs|
  {
    if qs != [] {
      var key := Signature(a, part, qs[0], a.alphabet);
      AddMemberKeeps(groups, key, qs[0], 0, x);
      ClassifyKeepsFirst(a, part, qs[1..], AddMember(groups, key, qs[0]), x);
    }
  }

  /** The least state of a block lands in its first class. */
  lemma ClassesFirst(a: Automaton, part: seq<set<int>>, e: set<int>, x: int)
    requires e <= Range(a.n) && x in e && forall y :: y in e ==> x <= y
    ensures Classes(a, part, e) != [] && x in Classes(a, part, e)[0]
  {
    var qs := Enumerate(e, 0, a.n);
    assert x in qs;
    assert qs[0] in e;
    assert qs[0] == x;
    var key := Signature(a, part, x, a.alphabet);
    assert Classify(a, part, qs, []) == Classify(a, part, qs[1..], AddMember([], key, x));
    assert AddMember([], key, x) == [Group(key, {x})];
    ClassifyKeepsFirst(a, part, qs[1..], [Group(key, {x})], x);
  }

  /** A pass keeps the initial state in the first block. */
  lemma PassKeepsZero(a: Automaton, part: seq<set<int>>, blocks: seq<set<int>>)
    requires InRange(blocks, a.n) && NonEmpty(blocks) && blocks != [] && 0 in blocks[0]
    ensures Pass(a, part, blocks).0 != [] && 0 in Pass(a, part, blocks).0[0]
  {
    PassUnfold(a, part, blocks);
    var e := blocks[0];
    SplitFacts(a, part, e);
    if |Classes(a, part, e)| > 1 {
      ClassesFirst(a, part, e, 0);
    }
  }

  /** Refinement keeps the initial state in the first block. */
  lemma RefineKeepsZero(a: Automaton, part: seq<set<int>>)
    requires IsPartition(part, a.n) && part != [] && 0 in part[0]
    ensures Refine(a, part) != [] && 0 in Refine(a, part)[0]
    decreases a.n - |part|
  {
    var pass := Pass(a, part, part);
    PassFacts(a, part);
    if pass.1 {
      PartitionInRange(part, a.n);
      PassKeepsZero(a, part, part);
      PartitionSize(pass.0, a.n);
      RefineKeepsZero(a, pass.0);
    }
  }
}
