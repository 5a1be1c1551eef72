/**
 * The automaton built from a refined partition: one state per block, block i
 * final when it meets the old finals, and the c-transition of block i leading
 * to the block of the c-successor of its representative. Then minimisation
 * itself: automate.py's `minimisation` as written, and as evidently intended.
 */
module Quotients {
  import opened Wrappers
  import opened Seqs
  import opened Automata
  import opened Language
  import opened Partitions
  import opened Minimisation

  /**
   * The block number of every state of part, as a dictionary filled block by
   * block: a state in two blocks keeps the later number.
   */
  function Mapping(part: seq<set<int>>): (m: map<int, nat>)
    ensures forall x :: x in m <==> x in UnionOf(part)
    ensures forall x :: x in m ==> m[x] < |part| && x in part[m[x]]
    decreases |part|
  {
    if part == [] then map[]
    else
      var k := |part| - 1;
      var prefix := part[..k];
      assert forall i :: 0 <= i < k ==> prefix[i] == part[i];
      Mapping(prefix) + map x | x in part[k] :: k
  }

  /** In a disjoint list the dictionary gives each state its block number. */
  lemma MappingBlock(part: seq<set<int>>, x: int)
    requires Disjoint(part) && x in UnionOf(part)
    ensures x in Mapping(part) && BlockOf(part, x) == Some(Mapping(part)[x])
  {
    BlockOfUnique(part, x, Mapping(part)[x]);
  }

  /** A non-empty set of states has a least member, the first one listed. */
  lemma EnumerateNonEmpty(s: set<int>, n: int)
    requires s != {} && s <= Range(n)
    ensures Enumerate(s, 0, n) != []
  {
    NonEmptyMember(s);
    var y :| y in s;
    assert y in Enumerate(s, 0, n);
  }

  /** The representative of block i: its least member. */
  function Rep(part: seq<set<int>>, n: int, i: nat): (r: int)
    requires i < |part| && part[i] != {} && part[i] <= Range(n)
    ensures r in part[i]
  {
    EnumerateNonEmpty(part[i], n);
    Enumerate(part[i], 0, n)[0]
  }

  /** What the quotient may be built from: a complete DFA and a partition of its states. */
  ghost predicate Base(a: Automaton, part: seq<set<int>>)
  {
    Dfa(a) && IsPartition(part, a.n)
  }

  /** The representative of a block of a partition. */
  function RepOf(a: Automaton, part: seq<set<int>>, i: nat): (r: int)
    requires Base(a, part) && i < |part|
    ensures 0 <= r < a.n && r in part[i]
  {
    PartitionInRange(part, a.n);
    Rep(part, a.n, i)
  }

  /** The block the c-successor of block i's representative lies in. */
  function Target(a: Automaton, part: seq<set<int>>, i: nat, c: char): (r: nat)
    requires Base(a, part) && i < |part| && c in a.alphabet
    ensures r < |part|
  {
    var q := RepOf(a, part, i);
    NextInRange(a, q, c);
    assert Next(a, q, c) in UnionOf(part);
    Mapping(part)[Next(a, q, c)]
  }

  /** Row i, column j: the target of block i on the j-th letter. */
  function Table(a: Automaton, part: seq<set<int>>): (t: seq<seq<nat>>)
    requires Base(a, part)
    ensures |t| == |part| && forall i :: 0 <= i < |t| ==> t[i] == TableRow(a, part, i)
  {
    seq(|part|, i requires 0 <= i < |part| => TableRow(a, part, i))
  }

  /** Row i of Table. */
  function TableRow(a: Automaton, part: seq<set<int>>, i: nat): (row: seq<nat>)
    requires Base(a, part) && i < |part|
    ensures |row| == |a.alphabet| && forall j :: 0 <= j < |row| ==> row[j] == Target(a, part, i, a.alphabet[j])
  {
    seq(|a.alphabet|, j requires 0 <= j < |a.alphabet| => Target(a, part, i, a.alphabet[j]))
  }

  /** The entries of block i: letter cs[j] leads to block ts[j]. */
  function RowEntries(i: nat, cs: seq<char>, ts: seq<nat>): seq<Entry>
    requires |ts| == |cs|
    decreases |cs|
  {
    if cs == [] then [] else [Entry(i, cs[0], [ts[0]])] + RowEntries(i, cs[1..], ts[1..])
  }

  /** Every row of table has one target per letter of cs. */
  ghost predicate Rows(cs: seq<char>, table: seq<seq<nat>>)
  {
    forall i :: 0 <= i < |table| ==> |table[i]| == |cs|
  }

  /** The entries of blocks i, i+1, ..., in that order. */
  function TableEntries(cs: seq<char>, table: seq<seq<nat>>, i: nat): seq<Entry>
    requires Rows(cs, table)
    decreases |table| - i
  {
    if i >= |table| then [] else RowEntries(i, cs, table[i]) + TableEntries(cs, table, i + 1)
  }

  /** The automaton of the blocks of part. */
  function Quotient(a: Automaton, part: seq<set<int>>): (r: Automaton)
    requires Base(a, part)
    ensures r.n == |part| && r.alphabet == a.alphabet && r.name == a.name
    ensures forall i :: i in r.final <==> 0 <= i < |part| && part[i] * ToSet(a.final) != {}
  {
    var table := Table(a, part);
    Automaton(a.alphabet, |part|, MeetingIndices(part, ToSet(a.final)), TableEntries(a.alphabet, table, 0), a.name)
  }

  // The entry of (i, c)

  /** Equal letters have equal targets. */
  ghost predicate Consistent(cs: seq<char>, ts: seq<nat>)
  {
    |ts| == |cs| && forall j, k :: 0 <= j < |cs| && 0 <= k < |cs| && cs[j] == cs[k] ==> ts[j] == ts[k]
  }

  lemma {:induction false} RowLookup(i: nat, cs: seq<char>, ts: seq<nat>, p: int, c: char)
    requires Consistent(cs, ts)
    ensures Lookup(RowEntries(i, cs, ts), p, c).Some? <==> p == i && c in cs
    ensures forall j :: 0 <= j < |cs| && cs[j] == c && p == i ==> Lookup(RowEntries(i, cs, ts), p, c) == Some([ts[j]])
    decreases |cs|
  {
    if cs != [] {
      assert Consistent(cs[1..], ts[1..]);
      RowLookup(i, cs[1..], ts[1..], p, c);
      LookupAppend([Entry(i, cs[0], [ts[0]])], RowEntries(i, cs[1..], ts[1..]), p, c);
      assert c in cs <==> c == cs[0] || c in cs[1..];
      forall j | 0 <= j < |cs| && cs[j] == c && p == i
        ensures Lookup(RowEntries(i, cs, ts), p, c) == Some([ts[j]])
      {
        if c in cs[1..] {
          var k :| 0 <= k < |cs[1..]| && cs[1..][k] == c;
          assert cs[k + 1] == c && ts[1..][k] == ts[k + 1];
        }
      }
    }
  }

  lemma {:induction false} TableLookup(cs: seq<char>, table: seq<seq<nat>>, i: nat, p: int, c: char)
    requires Rows(cs, table) && forall k :: 0 <= k < |table| ==> Consistent(cs, table[k])
    ensures Lookup(TableEntries(cs, table, i), p, c).Some? <==> i <= p < |table| && c in cs
    ensures forall j :: i <= p < |table| && 0 <= j < |cs| && cs[j] == c ==>
              Lookup(TableEntries(cs, table, i), p, c) == Some([table[p][j]])
    decreases |table| - i
  {
    if i < |table| {
      TableLookup(cs, table, i + 1, p, c);
      RowLookup(i, cs, table[i], p, c);
      LookupAppend(RowEntries(i, cs, table[i]), TableEntries(cs, table, i + 1), p, c);
    }
  }

  /** The table of a quotient gives equal letters equal targets. */
  lemma TableConsistent(a: Automaton, part: seq<set<int>>)
    requires Base(a, part)
    ensures Rows(a.alphabet, Table(a, part))
    ensures forall k :: 0 <= k < |part| ==> Consistent(a.alphabet, Table(a, part)[k])
  {
  }

  /** Block i has a c-transition exactly when i is a block and c a letter; it leads to Target. */
  lemma QuotientNext(a: Automaton, part: seq<set<int>>, i: int, c: char)
    requires Base(a, part)
    ensures Has(Quotient(a, part), i, c) <==> 0 <= i < |part| && c in a.alphabet
    ensures Next(Quotient(a, part), i, c)
         == if 0 <= i < |part| && c in a.alphabet then Target(a, part, i, c) else -1
  {
    var table := Table(a, part);
    TableConsistent(a, part);
    TableLookup(a.alphabet, table, 0, i, c);
    if 0 <= i < |part| && c in a.alphabet {
      var j :| 0 <= j < |a.alphabet| && a.alphabet[j] == c;
      assert table[i][j] == Target(a, part, i, c);
    }
  }

  // Shape

  /** Every entry has a source in [0, m), a letter of cs, and a single destination in [0, m). */
  ghost predicate Shaped(cs: seq<char>, m: int, t: seq<Entry>)
  {
    forall k :: 0 <= k < |t| ==>
      0 <= t[k].source < m && t[k].symbol in cs && |t[k].dests| == 1 && Within(t[k].dests, 0, m)
  }

  /** Every target is a row number. */
  ghost predicate Targets(table: seq<seq<nat>>)
  {
    forall i, j :: 0 <= i < |table| && 0 <= j < |table[i]| ==> table[i][j] < |table|
  }

  lemma {:induction false} RowShape(i: nat, cs: seq<char>, ts: seq<nat>, m: int)
    requires |ts| == |cs| && i < m && forall j :: 0 <= j < |ts| ==> ts[j] < m
    ensures Shaped(cs, m, RowEntries(i, cs, ts))
    decreases |cs|
  {
    if cs != [] {
      RowShape(i, cs[1..], ts[1..], m);
      var e := Entry(i, cs[0], [ts[0]]);
      var rest := RowEntries(i, cs[1..], ts[1..]);
      assert forall k :: 0 < k <= |rest| ==> ([e] + rest)[k] == rest[k - 1];
    }
  }

  lemma {:induction false} TableShape(cs: seq<char>, table: seq<seq<nat>>, i: nat)
    requires Rows(cs, table) && Targets(table)
    ensures Shaped(cs, |table|, TableEntries(cs, table, i))
    decreases |table| - i
  {
    if i < |table| {
      RowShape(i, cs, table[i], |table|);
      TableShape(cs, table, i + 1);
      var row := RowEntries(i, cs, table[i]);
      var rest := TableEntries(cs, table, i + 1);
      assert forall k :: |row| <= k < |row + rest| ==> (row + rest)[k] == rest[k - |row|];
    }
  }

  /** Every target is a block. */
  lemma TableTargets(a: Automaton, part: seq<set<int>>)
    requires Base(a, part)
    ensures Rows(a.alphabet, Table(a, part)) && Targets(Table(a, part))
  {
  }

  /** The entries of the quotient go from a block, on a letter, to a single block. */
  lemma QuotientShaped(a: Automaton, part: seq<set<int>>)
    requires Base(a, part)
    ensures Shaped(a.alphabet, |part|, Quotient(a, part).transition)
  {
    TableTargets(a, part);
    TableShape(a.alphabet, Table(a, part), 0);
  }

  /** The quotient is well formed and deterministic. */
  lemma QuotientDeterministic(a: Automaton, part: seq<set<int>>)
    requires Base(a, part)
    ensures WellFormed(Quotient(a, part)) && IsDeterministic(Quotient(a, part))
  {
    QuotientShaped(a, part);
    assert 0 in UnionOf(part);
  }

  /** The quotient has every letter at every block. */
  lemma QuotientComplete(a: Automaton, part: seq<set<int>>)
    requires Base(a, part)
    ensures IsComplete(Quotient(a, part))
  {
    var r := Quotient(a, part);
    forall q, c | 0 <= q < r.n && c in r.alphabet ensures Has(r, q, c) {
      QuotientNext(a, part, q, c);
    }
  }

  /** The quotient is again a complete DFA. */
  lemma QuotientDfa(a: Automaton, part: seq<set<int>>)
    requires Base(a, part)
    ensures Dfa(Quotient(a, part))
  {
    QuotientDeterministic(a, part);
    QuotientComplete(a, part);
  }

  // Language

  /** The block number of a state, or -1 for a state in no block. */
  function Class(part: seq<set<int>>, q: int): (r: int)
    ensures -1 <= r < |part|
    ensures r >= 0 <==> BlockOf(part, q).Some?
    ensures r >= 0 ==> q in part[r]
  {
    match BlockOf(part, q)
    case Some(i) => i
    case None => -1
  }

  /** A state of a, or the -1 a run reaches after a missing transition. */
  ghost predicate Place(a: Automaton, q: int)
  {
    q == -1 || 0 <= q < a.n
  }

  /** Over a stable partition, the target of q's block on a letter is the block of q's successor. */
  lemma TargetClass(a: Automaton, part: seq<set<int>>, q: int, c: char)
    requires Base(a, part) && Stable(a, part) && 0 <= q < a.n && c in a.alphabet
    ensures 0 <= Class(part, q) && 0 <= Next(a, q, c) < a.n
    ensures Target(a, part, Class(part, q), c) == Class(part, Next(a, q, c))
  {
    assert q in UnionOf(part);
    var i := Class(part, q);
    var p := RepOf(a, part, i);
    NextInRange(a, p, c);
    NextInRange(a, q, c);
    BlockOfUnique(part, p, i);
    assert BlockOf(part, Next(a, p, c)) == BlockOf(part, Next(a, q, c));
    assert Next(a, p, c) in UnionOf(part);
    MappingBlock(part, Next(a, p, c));
  }

  /** Over a stable partition, moving in the quotient tracks moving in a, block for state. */
  lemma QuotientStep(a: Automaton, part: seq<set<int>>, q: int, c: char)
    requires Base(a, part) && Stable(a, part) && Place(a, q)
    ensures Place(a, Next(a, q, c))
    ensures Next(Quotient(a, part), Class(part, q), c) == Class(part, Next(a, q, c))
  {
    QuotientNext(a, part, Class(part, q), c);
    if q != -1 && c in a.alphabet {
      TargetClass(a, part, q, c);
    } else {
      DestWithin(a, 0, a.n, q, c);
      LetterKeys(a, q, c);
      assert Next(a, q, c) == -1;
      assert -1 !in UnionOf(part);
    }
  }

  /** Reading a word in the quotient from the block of q ends in the block of where a ends. */
  lemma {:induction false} QuotientRun(a: Automaton, part: seq<set<int>>, q: int, w: string)
    requires Base(a, part) && Stable(a, part) && Place(a, q)
    ensures Place(a, Run(a, q, w))
    ensures Run(Quotient(a, part), Class(part, q), w) == Class(part, Run(a, q, w))
    decreases |w|
  {
    if w != [] {
      QuotientStep(a, part, q, w[0]);
      QuotientRun(a, part, Next(a, q, w[0]), w[1..]);
    }
  }

  /** When each block lies inside or outside the finals, a state's block is final exactly when it is. */
  lemma QuotientFinal(a: Automaton, part: seq<set<int>>, q: int)
    requires Base(a, part) && Homogeneous(part, ToSet(a.final)) && Place(a, q)
    ensures Class(part, q) in Quotient(a, part).final <==> q in a.final
  {
    MeetingBlocks(a, part, q, Quotient(a, part).final);
  }

  /** When fin lists the blocks that meet the finals, q's block is in fin exactly when q is final. */
  lemma MeetingBlocks(a: Automaton, part: seq<set<int>>, q: int, fin: seq<int>)
    requires Base(a, part) && Homogeneous(part, ToSet(a.final)) && Place(a, q)
    requires forall i :: i in fin <==> 0 <= i < |part| && part[i] * ToSet(a.final) != {}
    ensures Class(part, q) in fin <==> q in a.final
  {
    assert -1 !in UnionOf(part);
    if q in a.final {
      assert q in ToSet(a.final);
      assert q in UnionOf(part);
    } else if q != -1 {
      assert q in UnionOf(part);
      var i := Class(part, q);
      assert q !in ToSet(a.final);
    }
  }

  /**
   * The quotient by a stable partition whose blocks lie inside or outside the
   * finals, with the initial state in block 0, accepts exactly what a accepts.
   */
  lemma QuotientAccepts(a: Automaton, part: seq<set<int>>, w: string)
    requires Base(a, part) && Stable(a, part) && Homogeneous(part, ToSet(a.final))
    requires part != [] && 0 in part[0]
    ensures DfaAccepts(Quotient(a, part), w) <==> DfaAccepts(a, w)
  {
    BlockOfUnique(part, 0, 0);
    QuotientRun(a, part, 0, w);
    QuotientFinal(a, part, Run(a, 0, w));
  }

  // Reordering blocks

  lemma SwappedInjective(k: nat, l: nat, i: nat, j: nat)
    ensures Swapped(k, i, j) == Swapped(l, i, j) ==> k == l
  {
  }

  /** Exchanging two blocks of a stable partition keeps it stable. */
  lemma SwapStable(a: Automaton, part: seq<set<int>>, i: nat, j: nat)
    requires IsPartition(part, a.n) && Stable(a, part) && i < |part| && j < |part|
    ensures Stable(a, Swap(part, i, j))
  {
    var s := Swap(part, i, j);
    forall q, q', c | 0 <= q < a.n && 0 <= q' < a.n && BlockOf(s, q) == BlockOf(s, q') && c in a.alphabet
      ensures BlockOf(s, Next(a, q, c)) == BlockOf(s, Next(a, q', c))
    {
      assert q in UnionOf(part) && q' in UnionOf(part);
      SwapPartition(part, a.n, i, j, q);
      SwapPartition(part, a.n, i, j, q');
      SwappedInjective(BlockOf(part, q).value, BlockOf(part, q').value, i, j);
      SwapPartition(part, a.n, i, j, Next(a, q, c));
      SwapPartition(part, a.n, i, j, Next(a, q', c));
    }
  }

  /** Exchanging two blocks keeps every block inside or outside f. */
  lemma SwapHomogeneous(part: seq<set<int>>, f: set<int>, i: nat, j: nat)
    requires Homogeneous(part, f) && i < |part| && j < |part|
    ensures Homogeneous(Swap(part, i, j), f)
  {
    var s := Swap(part, i, j);
    forall k | 0 <= k < |s| ensures s[k] <= f || s[k] * f == {} {
      assert s[k] == part[Swapped(k, i, j)];
    }
  }

  // Minimisation

  /** The finals / non-finals partition, refined until stable. */
  function Refined(a: Automaton): (r: seq<set<int>>)
    requires Dfa(a)
    ensures IsPartition(r, a.n)
  {
    InitialFacts(a);
    Refine(a, InitialPartition(a))
  }

  /** automate.py's `minimisation` as written: the quotient by the refined partition, blocks in refinement order. */
  function MinimiseAsWritten(a: Automaton): (r: Automaton)
    requires Dfa(a)
  {
    Quotient(a, Refined(a))
  }

  /** The refined partition with the block of the initial state moved to the front. */
  function MinimalPartition(a: Automaton): (r: seq<set<int>>)
    requires Dfa(a)
    ensures IsPartition(r, a.n) && r != [] && 0 in r[0]
  {
    var part := Refined(a);
    assert 0 in UnionOf(part);
    var k := BlockOf(part, 0).value;
    SwapPartition(part, a.n, 0, k, 0);
    Swap(part, 0, k)
  }

  /** Minimisation: the quotient by the refined partition, the block of the initial state numbered 0. */
  function Minimise(a: Automaton): (r: Automaton)
    requires Dfa(a)
  {
    Quotient(a, MinimalPartition(a))
  }

  /** The partition minimisation uses is stable and keeps finals and non-finals apart. */
  lemma MinimalPartitionFacts(a: Automaton)
    requires Dfa(a)
    ensures Stable(a, MinimalPartition(a)) && Homogeneous(MinimalPartition(a), ToSet(a.final))
  {
    InitialFacts(a);
    var part := Refine(a, InitialPartition(a));
    RefineStable(a, InitialPartition(a));
    RefineHomogeneous(a, InitialPartition(a), ToSet(a.final));
    assert 0 in UnionOf(part);
    var k := BlockOf(part, 0).value;
    SwapStable(a, part, 0, k);
    SwapHomogeneous(part, ToSet(a.final), 0, k);
  }

  /** Minimisation keeps the language: the result accepts exactly the words a accepts. */
  lemma MinimisePreserves(a: Automaton, w: string)
    requires Dfa(a)
    ensures DfaAccepts(Minimise(a), w) <==> DfaAccepts(a, w)
  {
    MinimalPartitionFacts(a);
    QuotientAccepts(a, MinimalPartition(a), w);
  }

  /** Minimisation gives a complete DFA over the same alphabet, under the same name, with no more states. */
  lemma MinimiseShape(a: Automaton)
    requires Dfa(a)
    ensures Dfa(Minimise(a)) && 1 <= Minimise(a).n <= a.n
    ensures Minimise(a).alphabet == a.alphabet && Minimise(a).name == a.name
  {
    QuotientDfa(a, MinimalPartition(a));
    PartitionSize(MinimalPartition(a), a.n);
  }

  /** The as-written result is also a complete DFA with no more states. */
  lemma MinimiseAsWrittenShape(a: Automaton)
    requires Dfa(a)
    ensures Dfa(MinimiseAsWritten(a)) && 1 <= MinimiseAsWritten(a).n <= a.n
    ensures MinimiseAsWritten(a).alphabet == a.alphabet && MinimiseAsWritten(a).name == a.name
  {
    InitialFacts(a);
    var part := Refine(a, InitialPartition(a));
    QuotientDfa(a, part);
    PartitionSize(part, a.n);
  }

  // The block numbering of automate.py's `minimisation`

  /**
   * As written, the first block is the block of final states whenever there is
   * one, so state 0 of the result is final whatever the initial state was.
   */
  lemma AsWrittenFirstFinal(a: Automaton)
    requires Dfa(a) && a.final != []
    ensures 0 in MinimiseAsWritten(a).final
  {
    InitialFacts(a);
    var part := Refine(a, InitialPartition(a));
    RefineFirst(a, InitialPartition(a));
    NonEmptyMember(part[0]);
    var y :| y in part[0];
    assert y in part[0] * ToSet(a.final);
  }

  /**
   * Hence, when the initial state is not final but some state is, the
   * as-written result accepts the empty word and a does not.
   */
  lemma AsWrittenWrong(a: Automaton)
    requires Dfa(a) && a.final != [] && 0 !in a.final
    ensures DfaAccepts(MinimiseAsWritten(a), []) && !DfaAccepts(a, [])
  {
    AsWrittenFirstFinal(a);
  }

  /** When the initial state is final, or nothing is, the block of the initial state already comes first. */
  lemma AsWrittenAgrees(a: Automaton)
    requires Dfa(a) && (a.final == [] || 0 in a.final)
    ensures MinimiseAsWritten(a) == Minimise(a)
  {
    AsWrittenPartition(a);
  }

  /** In that case moving the initial state's block to the front leaves the refined partition as it is. */
  lemma AsWrittenPartition(a: Automaton)
    requires Dfa(a) && (a.final == [] || 0 in a.final)
    ensures MinimalPartition(a) == Refined(a)
  {
    RefinedZeroFirst(a);
    var part := Refined(a);
    BlockOfUnique(part, 0, 0);
    assert Swap(part, 0, 0) == part;
  }

  /** When the initial state is final, or nothing is, its block stays first through the refinement. */
  lemma RefinedZeroFirst(a: Automaton)
    requires Dfa(a) && (a.final == [] || 0 in a.final)
    ensures Refined(a) != [] && 0 in Refined(a)[0]
  {
    InitialFacts(a);
    var init := InitialPartition(a);
    if a.final != [] {
      assert 0 in ToSet(a.final);
    }
    assert 0 in init[0];
    RefineKeepsZero(a, init);
  }
}
