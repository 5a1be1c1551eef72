/**
 * Renumbering and the Thompson-style combinators: concatenation, union and
 * star. Each combinator shifts its operands so that their state ranges do not
 * overlap and bridges them with epsilon transitions.
 */
module Combinators {
  import opened Wrappers
  import opened Seqs
  import opened Automata

  /** The stored entries with every source and destination increased by k. */
  function ShiftEntries(t: seq<Entry>, k: int): (r: seq<Entry>)
    ensures |r| == |t|
    ensures forall i :: 0 <= i < |t| ==> r[i].source == t[i].source + k && r[i].symbol == t[i].symbol
  {
    seq(|t|, i requires 0 <= i < |t| => Entry(t[i].source + k, t[i].symbol, ShiftSeq(t[i].dests, k)))
  }

  /** A copy of a with every state id, in finals and transitions, increased by k. */
  function Shift(a: Automaton, k: int): (r: Automaton)
    ensures r.alphabet == a.alphabet && r.n == a.n && r.name == a.name
    ensures |r.final| == |a.final| && forall i :: 0 <= i < |a.final| ==> r.final[i] == a.final[i] + k
  {
    a.(final := ShiftSeq(a.final, k), transition := ShiftEntries(a.transition, k))
  }

  /** The automaton for L(a1) . L(a2): a2 follows a1 and each final of a1 is bridged to a2's start. */
  function Concat(a1: Automaton, a2: Automaton): (r: Automaton)
    ensures r.n == a1.n + a2.n && r.alphabet == a1.alphabet
    ensures r.final == ShiftSeq(a2.final, a1.n)
  {
    AddEach(ConcatJoin(a1, a2), a1.final, Epsilon, [a1.n])
  }

  /** Concat before the epsilon bridges: a1's entries, then a2's shifted past a1's states. */
  function ConcatJoin(a1: Automaton, a2: Automaton): Automaton
  {
    var b2 := Shift(a2, a1.n);
    Automaton(a1.alphabet, a1.n + a2.n, b2.final, a1.transition + b2.transition,
              "(" + a1.name + "." + a2.name + ")")
  }

  /** The automaton for L(a1) + L(a2): a fresh start state 0 with epsilon edges to both operands. */
  function Union(a1: Automaton, a2: Automaton): (r: Automaton)
    ensures r.n == 1 + a1.n + a2.n && r.alphabet == a1.alphabet
    ensures r.final == ShiftSeq(a1.final, 1) + ShiftSeq(a2.final, 1 + a1.n)
  {
    AddTransition(UnionJoin(a1, a2), 0, Epsilon, [1, 1 + a1.n])
  }

  /** Union before the epsilon edges: a1 shifted by 1 and a2 shifted past it. */
  function UnionJoin(a1: Automaton, a2: Automaton): Automaton
  {
    var b1 := Shift(a1, 1);
    var b2 := Shift(a2, 1 + a1.n);
    Automaton(a1.alphabet, 1 + a1.n + a2.n, b1.final + b2.final, b1.transition + b2.transition,
              "(" + a1.name + "+" + a2.name + ")")
  }

  /**
   * The automaton for L(a1)*: a fresh final start state 0 with an epsilon edge
   * into a1, and from each final of a1 epsilon edges back to a1's start and to 0.
   */
  function Star(a1: Automaton): (r: Automaton)
    ensures r.n == a1.n + 1 && r.alphabet == a1.alphabet
    ensures r.final == [0] + ShiftSeq(a1.final, 1) && 0 in r.final
  {
    var b1 := Shift(a1, 1);
    AddEach(AddTransition(StarJoin(a1), 0, Epsilon, [1]), b1.final, Epsilon, [1, 0])
  }

  /** Star before the epsilon edges: a1 shifted by 1 below a fresh final state 0. */
  function StarJoin(a1: Automaton): Automaton
  {
    var b1 := Shift(a1, 1);
    Automaton(a1.alphabet, a1.n + 1, [0] + b1.final, b1.transition, "(" + a1.name + ")*")
  }

  // Shift

  /** A looked-up value with its destinations increased by k. */
  function ShiftOption(o: Option<seq<int>>, k: int): Option<seq<int>>
  {
    match o
    case Some(d) => Some(ShiftSeq(d, k))
    case None => None
  }

  lemma {:induction false} ShiftLookup(t: seq<Entry>, k: int, q: int, c: char)
    ensures Lookup(ShiftEntries(t, k), q + k, c) == ShiftOption(Lookup(t, q, c), k)
    decreases |t|
  {
    if t != [] {
      var u := t[..|t| - 1];
      assert ShiftEntries(t, k)[..|t| - 1] == ShiftEntries(u, k);
      ShiftLookup(u, k, q, c);
    }
  }

  /** Shifting renumbers entries: the entry of (q + k, c) is the shifted entry of (q, c). */
  lemma ShiftDest(a: Automaton, k: int, q: int, c: char)
    ensures Has(Shift(a, k), q + k, c) <==> Has(a, q, c)
    ensures Dest(Shift(a, k), q + k, c) == ShiftSeq(Dest(a, q, c), k)
  {
    ShiftLookup(a.transition, k, q, c);
  }

  /** Shifting back by -k restores the original automaton. */
  lemma ShiftInverse(a: Automaton, k: int)
    ensures Shift(Shift(a, k), -k) == a
  {
    var r := Shift(Shift(a, k), -k);
    assert r.final == a.final;
    assert r.transition == a.transition by {
      forall i | 0 <= i < |a.transition|
        ensures r.transition[i] == a.transition[i]
      {
        assert ShiftSeq(ShiftSeq(a.transition[i].dests, k), -k) == a.transition[i].dests;
      }
    }
  }

  /** When every id of a lies in [lo, hi), every id of Shift(a, k) lies in [lo + k, hi + k). */
  lemma ShiftIdsWithin(a: Automaton, k: int, lo: int, hi: int)
    requires IdsWithin(a, lo, hi)
    ensures IdsWithin(Shift(a, k), lo + k, hi + k)
  {
    var r := Shift(a, k);
    forall i | 0 <= i < |r.transition|
      ensures lo + k <= r.transition[i].source < hi + k && Within(r.transition[i].dests, lo + k, hi + k)
    {
      WithinShift(a.transition[i].dests, k, lo, hi);
    }
  }

  // Concatenation

  lemma ConcatJoinDest(a1: Automaton, a2: Automaton, p: int, x: char)
    requires IdsWithin(a1, 0, a1.n) && IdsWithin(a2, 0, a2.n)
    ensures Has(ConcatJoin(a1, a2), p, x) <==> Has(a1, p, x) || Has(a2, p - a1.n, x)
    ensures Dest(ConcatJoin(a1, a2), p, x)
         == if p < a1.n then Dest(a1, p, x) else ShiftSeq(Dest(a2, p - a1.n, x), a1.n)
  {
    var b2 := Shift(a2, a1.n);
    LookupAppend(a1.transition, b2.transition, p, x);
    ShiftDest(a2, a1.n, p - a1.n, x);
    assert p - a1.n + a1.n == p;
    DestWithin(a1, 0, a1.n, p, x);
    DestWithin(a2, 0, a2.n, p - a1.n, x);
  }

  /**
   * The entries of a1 . a2: a1's own entries below a1.n, each a1 final gaining
   * one epsilon edge to a2's start a1.n, and a2's entries shifted by a1.n above.
   */
  lemma ConcatDest(a1: Automaton, a2: Automaton, p: int, x: char)
    requires IdsWithin(a1, 0, a1.n) && IdsWithin(a2, 0, a2.n)
    ensures Dest(Concat(a1, a2), p, x)
         == if p < a1.n then Dest(a1, p, x) + (if x == Epsilon then Repeat([a1.n], Count(a1.final, p)) else [])
            else ShiftSeq(Dest(a2, p - a1.n, x), a1.n)
  {
    AddEachDest(ConcatJoin(a1, a2), a1.final, Epsilon, [a1.n], p, x);
    ConcatJoinDest(a1, a2, p, x);
    if p >= a1.n {
      CountAbsent(a1.final, p);
    }
  }

  /** The keys of a1 . a2: a1's, a2's shifted by a1.n, and (f, epsilon) for each final f of a1. */
  lemma ConcatKeys(a1: Automaton, a2: Automaton, q: int, c: char)
    requires IdsWithin(a1, 0, a1.n) && IdsWithin(a2, 0, a2.n)
    ensures Has(Concat(a1, a2), q, c) <==> Has(a1, q, c) || Has(a2, q - a1.n, c) || (c == Epsilon && q in a1.final)
  {
    AddEachKeys(ConcatJoin(a1, a2), a1.final, Epsilon, [a1.n], q, c);
    ConcatJoinDest(a1, a2, q, c);
  }

  /** When both operands keep their ids below their n, so does a1 . a2. */
  lemma ConcatIdsWithin(a1: Automaton, a2: Automaton)
    requires IdsWithin(a1, 0, a1.n) && IdsWithin(a2, 0, a2.n) && a2.n >= 1
    ensures IdsWithin(Concat(a1, a2), 0, a1.n + a2.n)
  {
    var n := a1.n + a2.n;
    var b2 := Shift(a2, a1.n);
    ShiftIdsWithin(a2, a1.n, 0, a2.n);
    var joined := ConcatJoin(a1, a2);
    forall i | 0 <= i < |joined.transition|
      ensures 0 <= joined.transition[i].source < n && Within(joined.transition[i].dests, 0, n)
    {
      if i < |a1.transition| {
        assert joined.transition[i] == a1.transition[i];
      } else {
        assert joined.transition[i] == b2.transition[i - |a1.transition|];
      }
    }
    WithinWiden(a1.final, 0, a1.n, 0, n);
    AddEachIdsWithin(joined, a1.final, Epsilon, [a1.n], 0, n);
  }

  /** Concatenating two well-formed automata over one alphabet gives a well-formed automaton. */
  lemma ConcatWellFormed(a1: Automaton, a2: Automaton)
    requires WellFormed(a1) && WellFormed(a2) && a1.alphabet == a2.alphabet
    ensures WellFormed(Concat(a1, a2))
  {
    ConcatIdsWithin(a1, a2);
    var joined := ConcatJoin(a1, a2);
    var b2 := Shift(a2, a1.n);
    var r := Concat(a1, a2);
    forall i | 0 <= i < |r.transition|
      ensures r.transition[i].symbol == Epsilon || r.transition[i].symbol in a1.alphabet
    {
      AddEachSymbols(joined, a1.final, Epsilon, [a1.n], i);
      if i < |a1.transition| {
        assert joined.transition[i] == a1.transition[i];
      } else if i < |joined.transition| {
        assert joined.transition[i] == b2.transition[i - |a1.transition|];
      }
    }
  }

  // Union

  /**
   * The entries of a1 + a2: (0, epsilon) leads to both operands' starts 1 and
   * 1 + a1.n; a1's entries are shifted by 1 and a2's by 1 + a1.n.
   */
  lemma UnionDest(a1: Automaton, a2: Automaton, p: int, x: char)
    requires IdsWithin(a1, 0, a1.n) && IdsWithin(a2, 0, a2.n)
    ensures Has(Union(a1, a2), p, x)
        <==> (p == 0 && x == Epsilon) || Has(a1, p - 1, x) || Has(a2, p - 1 - a1.n, x)
    ensures Dest(Union(a1, a2), p, x)
         == if p == 0 && x == Epsilon then [1, 1 + a1.n]
            else if p <= a1.n then ShiftSeq(Dest(a1, p - 1, x), 1)
            else ShiftSeq(Dest(a2, p - 1 - a1.n, x), 1 + a1.n)
  {
    if p == 0 && x == Epsilon {
      UnionStart(a1, a2);
      DestWithin(a1, 0, a1.n, -1, x);
      DestWithin(a2, 0, a2.n, -1 - a1.n, x);
    } else {
      UnionJoinDest(a1, a2, p, x);
      AddTransitionDest(UnionJoin(a1, a2), 0, Epsilon, [1, 1 + a1.n], p, x);
    }
  }

  /** The new start state's only entry: epsilon to both operands' starts. */
  lemma UnionStart(a1: Automaton, a2: Automaton)
    requires IdsWithin(a1, 0, a1.n) && IdsWithin(a2, 0, a2.n)
    ensures Has(Union(a1, a2), 0, Epsilon) && Dest(Union(a1, a2), 0, Epsilon) == [1, 1 + a1.n]
  {
    var joined := UnionJoin(a1, a2);
    var e := [1, 1 + a1.n];
    UnionJoinDest(a1, a2, 0, Epsilon);
    AddTransitionDest(joined, 0, Epsilon, e, 0, Epsilon);
    DestWithin(a1, 0, a1.n, -1, Epsilon);
    assert ShiftSeq(Dest(a1, -1, Epsilon), 1) == [];
    assert Dest(joined, 0, Epsilon) + e == e;
  }

  /** Before the epsilon edges, a1's keys sit one place up and a2's past a1's states. */
  lemma UnionJoinDest(a1: Automaton, a2: Automaton, p: int, x: char)
    requires IdsWithin(a1, 0, a1.n) && IdsWithin(a2, 0, a2.n)
    ensures Has(UnionJoin(a1, a2), p, x) <==> Has(a1, p - 1, x) || Has(a2, p - 1 - a1.n, x)
    ensures Dest(UnionJoin(a1, a2), p, x)
         == if p <= a1.n then ShiftSeq(Dest(a1, p - 1, x), 1)
            else ShiftSeq(Dest(a2, p - 1 - a1.n, x), 1 + a1.n)
  {
    DestWithin(a1, 0, a1.n, p - 1, x);
    DestWithin(a2, 0, a2.n, p - 1 - a1.n, x);
    PairLookup(a1.transition, a2.transition, 1, 1 + a1.n, p - 1, p - 1 - a1.n, x, p <= a1.n);
  }

  /**
   * Lookup in t1 shifted by k1 followed by t2 shifted by k2, at a key that is
   * q1 + k1 = q2 + k2: t1's entry when the caller knows t2 has none there, t2's otherwise.
   */
  lemma PairLookup(t1: seq<Entry>, t2: seq<Entry>, k1: int, k2: int, q1: int, q2: int, x: char, first: bool)
    requires q1 + k1 == q2 + k2
    requires first ==> Lookup(t2, q2, x).None?
    requires !first ==> Lookup(t1, q1, x).None?
    ensures Lookup(ShiftEntries(t1, k1) + ShiftEntries(t2, k2), q1 + k1, x)
         == if first then ShiftOption(Lookup(t1, q1, x), k1) else ShiftOption(Lookup(t2, q2, x), k2)
  {
    LookupAppend(ShiftEntries(t1, k1), ShiftEntries(t2, k2), q1 + k1, x);
    ShiftLookup(t1, k1, q1, x);
    ShiftLookup(t2, k2, q2, x);
  }

  /** When both operands keep their ids below their n, so does a1 + a2. */
  lemma UnionIdsWithin(a1: Automaton, a2: Automaton)
    requires IdsWithin(a1, 0, a1.n) && IdsWithin(a2, 0, a2.n) && a2.n >= 1
    ensures IdsWithin(Union(a1, a2), 0, 1 + a1.n + a2.n)
  {
    var n := 1 + a1.n + a2.n;
    var b1 := Shift(a1, 1);
    var b2 := Shift(a2, 1 + a1.n);
    ShiftIdsWithin(a1, 1, 0, a1.n);
    ShiftIdsWithin(a2, 1 + a1.n, 0, a2.n);
    var joined := UnionJoin(a1, a2);
    forall i | 0 <= i < |joined.transition|
      ensures 0 <= joined.transition[i].source < n && Within(joined.transition[i].dests, 0, n)
    {
      if i < |b1.transition| {
        assert joined.transition[i] == b1.transition[i];
      } else {
        assert joined.transition[i] == b2.transition[i - |b1.transition|];
      }
    }
    WithinConcat(b1.final, b2.final, 0, n);
    DestWithin(joined, 0, n, 0, Epsilon);
    WithinConcat(Dest(joined, 0, Epsilon), [1, 1 + a1.n], 0, n);
  }

  /** The union of two well-formed automata over one alphabet is well formed. */
  lemma UnionWellFormed(a1: Automaton, a2: Automaton)
    requires WellFormed(a1) && WellFormed(a2) && a1.alphabet == a2.alphabet
    ensures WellFormed(Union(a1, a2))
  {
    UnionIdsWithin(a1, a2);
    var b1 := Shift(a1, 1);
    var b2 := Shift(a2, 1 + a1.n);
    var joined := UnionJoin(a1, a2);
    var r := Union(a1, a2);
    forall i | 0 <= i < |r.transition|
      ensures r.transition[i].symbol == Epsilon || r.transition[i].symbol in a1.alphabet
    {
      if i < |b1.transition| {
        assert r.transition[i] == b1.transition[i];
      } else if i < |joined.transition| {
        assert r.transition[i] == b2.transition[i - |b1.transition|];
      }
    }
  }

  // Star

  /**
   * The entries of a1*: (0, epsilon) leads to a1's start 1; a1's entries are
   * shifted by 1, and each final f of a1 gains epsilon edges to 1 and to 0.
   */
  lemma StarDest(a1: Automaton, p: int, x: char)
    requires IdsWithin(a1, 0, a1.n)
    ensures Dest(Star(a1), p, x)
         == if p == 0 then (if x == Epsilon then [1] else [])
            else ShiftSeq(Dest(a1, p - 1, x), 1)
                 + (if x == Epsilon then Repeat([1, 0], Count(a1.final, p - 1)) else [])
  {
    var b1 := Shift(a1, 1);
    var base := AddTransition(StarJoin(a1), 0, Epsilon, [1]);
    AddEachDest(base, b1.final, Epsilon, [1, 0], p, x);
    ShiftDest(a1, 1, p - 1, x);
    assert p - 1 + 1 == p;
    CountShift(a1.final, 1, p - 1);
    DestWithin(a1, 0, a1.n, p - 1, x);
    if p == 0 {
      ShiftIdsWithin(a1, 1, 0, a1.n);
      CountAbsent(b1.final, 0);
    }
  }

  /** When a1 keeps its ids below its n, so does a1*. */
  lemma StarIdsWithin(a1: Automaton)
    requires IdsWithin(a1, 0, a1.n) && a1.n >= 1
    ensures IdsWithin(Star(a1), 0, a1.n + 1)
  {
    var n := a1.n + 1;
    var b1 := Shift(a1, 1);
    ShiftIdsWithin(a1, 1, 0, a1.n);
    var joined := StarJoin(a1);
    assert IdsWithin(joined, 0, n);
    var base := AddTransition(joined, 0, Epsilon, [1]);
    DestWithin(joined, 0, n, 0, Epsilon);
    WithinConcat(Dest(joined, 0, Epsilon), [1], 0, n);
    assert IdsWithin(base, 0, n);
    AddEachIdsWithin(base, b1.final, Epsilon, [1, 0], 0, n);
  }

  /** The star of a well-formed automaton is well formed. */
  lemma StarWellFormed(a1: Automaton)
    requires WellFormed(a1)
    ensures WellFormed(Star(a1))
  {
    StarIdsWithin(a1);
    var b1 := Shift(a1, 1);
    var base := AddTransition(StarJoin(a1), 0, Epsilon, [1]);
    var r := Star(a1);
    forall i | 0 <= i < |r.transition|
      ensures r.transition[i].symbol == Epsilon || r.transition[i].symbol in a1.alphabet
    {
      AddEachSymbols(base, b1.final, Epsilon, [1, 0], i);
      if i < |b1.transition| {
        assert base.transition[i] == b1.transition[i];
      }
    }
  }
}
