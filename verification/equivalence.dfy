/**
 * The fixed pipeline (epsilon elimination, determinisation, completion,
 * minimisation) and the equivalence test built on it: both automata are
 * reduced, compared on alphabet and size, then matched state for state by a
 * breadth-first walk from the pair (0, 0) that builds a mapping from the first
 * automaton's states to the second's and fails on the first disagreement.
 */
module Equivalence {
  import opened Wrappers
  import opened Seqs
  import opened Automata
  import opened Language
  import opened Elimination
  import opened Determinisation
  import opened Completion
  import opened Partitions
  import opened Minimisation
  import opened Quotients

  // The pipeline

  /** Epsilon elimination, determinisation and completion: the complete DFA minimisation starts from. */
  function Prepare(a: Automaton): (r: Automaton)
    requires WellFormed(a)
    ensures Dfa(r) && r.alphabet == a.alphabet
  {
    var e := EliminateEpsilon(a);
    EliminateWellFormed(a);
    var d := Determinise(e);
    DeterminiseWellFormed(e);
    CompleteWellFormed(d);
    Complete(d)
  }

  /** automate.py's `tout_faire`: elimination, determinisation, completion, then `minimisation` as written. */
  function ReduceAsWritten(a: Automaton): (r: Automaton)
    requires WellFormed(a)
  {
    MinimiseAsWritten(Prepare(a))
  }

  /** The whole pipeline with the initial state's block numbered 0. */
  function Reduce(a: Automaton): (r: Automaton)
    requires WellFormed(a)
  {
    Minimise(Prepare(a))
  }

  /** The pipeline keeps the language: the prepared and the reduced DFA accept exactly the words a accepts. */
  lemma PreparePreserves(a: Automaton, w: string)
    requires WellFormed(a)
    ensures DfaAccepts(Prepare(a), w) <==> Accepts(a, w)
    ensures DfaAccepts(Reduce(a), w) <==> Accepts(a, w)
  {
    var e := EliminateEpsilon(a);
    EliminateWellFormed(a);
    EliminatePreserves(a, w);
    DeterminiseWellFormed(e);
    DeterminisePreserves(e, w);
    CompletePreserves(Determinise(e), w);
    MinimisePreserves(Prepare(a), w);
  }

  /** The pipeline ends in a complete DFA over the same alphabet. */
  lemma ReduceShape(a: Automaton)
    requires WellFormed(a)
    ensures Dfa(Reduce(a)) && Reduce(a).alphabet == a.alphabet
  {
    MinimiseShape(Prepare(a));
  }

  // Matching two DFAs

  /** The mapping built so far and the states of the first automaton in the order they were met. */
  datatype Pairing = Pairing(m: map<int, int>, order: seq<int>)

  /** The met states are exactly the mapped ones, and all of them are states of an automaton with n states. */
  ghost predicate Tracked(n: int, p: Pairing)
  {
    Within(p.order, 0, n) && forall q :: q in p.m <==> q in p.order
  }

  /**
   * Follows the letters cs from q1 in a1 and q2 in a2: a successor already
   * mapped must be mapped to q2's successor, a new one is mapped to it and
   * queued. None on the first mismatch.
   */
  function MatchLetters(a1: Automaton, a2: Automaton, q1: int, q2: int, cs: seq<char>, p: Pairing): (r: Option<Pairing>)
    decreases |cs|
  {
    if cs == [] then Some(p)
    else
      var r1 := Next(a1, q1, cs[0]);
      var r2 := Next(a2, q2, cs[0]);
      if r1 in p.m then
        if p.m[r1] != r2 then None else MatchLetters(a1, a2, q1, q2, cs[1..], p)
      else MatchLetters(a1, a2, q1, q2, cs[1..], Pairing(p.m[r1 := r2], p.order + [r1]))
  }

  /** m' agrees with m on m's keys. */
  ghost predicate Extends(m: map<int, int>, m': map<int, int>)
  {
    forall x :: x in m ==> x in m' && m'[x] == m[x]
  }

  /** What a successful letter walk adds: only queued states, keeping what was mapped. */
  lemma {:induction false} MatchLettersGrows(a1: Automaton, a2: Automaton, q1: int, q2: int, cs: seq<char>, p: Pairing)
    requires Dfa(a1) && 0 <= q1 < a1.n && (forall c :: c in cs ==> c in a1.alphabet) && Tracked(a1.n, p)
    ensures MatchLetters(a1, a2, q1, q2, cs, p).Some? ==>
      var p' := MatchLetters(a1, a2, q1, q2, cs, p).value;
      && Tracked(a1.n, p')
      && |p.order| <= |p'.order| && p'.order[..|p.order|] == p.order
      && Extends(p.m, p'.m)
      && (|p'.order| > |p.order| ==> Range(a1.n) - p'.m.Keys < Range(a1.n) - p.m.Keys)
      && (|p'.order| == |p.order| ==> p'.m.Keys == p.m.Keys)
    decreases |cs|
  {
    if cs != [] {
      var r1 := Next(a1, q1, cs[0]);
      var r2 := Next(a2, q2, cs[0]);
      if r1 in p.m {
        MatchLettersGrows(a1, a2, q1, q2, cs[1..], p);
      } else {
        NextInRange(a1, q1, cs[0]);
        var p1 := Pairing(p.m[r1 := r2], p.order + [r1]);
        assert Tracked(a1.n, p1);
        MatchLettersGrows(a1, a2, q1, q2, cs[1..], p1);
        var r := MatchLetters(a1, a2, q1, q2, cs[1..], p1);
        if r.Some? {
          var p' := r.value;
          assert p'.order[..|p.order|] == p'.order[..|p1.order|][..|p.order|];
          assert r1 in Range(a1.n) - p.m.Keys && r1 !in Range(a1.n) - p'.m.Keys;
        }
      }
    }
  }

  /**
   * Walks the queue from position k: each queued state must agree with its
   * image on being final, then its letters are matched. On success, the
   * complete mapping.
   */
  function Match(a1: Automaton, a2: Automaton, p: Pairing, k: nat): (r: Option<map<int, int>>)
    requires Dfa(a1) && Tracked(a1.n, p) && k <= |p.order|
    decreases Range(a1.n) - p.m.Keys, |p.order| - k
  {
    if k == |p.order| then Some(p.m)
    else
      var q1 := p.order[k];
      var q2 := p.m[q1];
      if (q1 in a1.final) != (q2 in a2.final) then None
      else
        MatchLettersGrows(a1, a2, q1, q2, a1.alphabet, p);
        match MatchLetters(a1, a2, q1, q2, a1.alphabet, p)
        case None => None
        case Some(p') => Match(a1, a2, p', k + 1)
  }

  /** The comparison `egal` makes of two reduced automata: alphabets and sizes, then the walk from 0. */
  function Compare(a1: Automaton, a2: Automaton): bool
    requires Dfa(a1)
  {
    if a1.alphabet != a2.alphabet || a1.n != a2.n then false
    else Match(a1, a2, Pairing(map[0 := 0], [0]), 0).Some?
  }

  /** automate.py's `egal`: the comparison of the two `tout_faire` results, as written. */
  function EqualAsWritten(a1: Automaton, a2: Automaton): bool
    requires WellFormed(a1) && WellFormed(a2)
  {
    MinimiseAsWrittenShape(Prepare(a1));
    Compare(ReduceAsWritten(a1), ReduceAsWritten(a2))
  }

  /** The equivalence test over the corrected pipeline. */
  function Equal(a1: Automaton, a2: Automaton): bool
    requires WellFormed(a1) && WellFormed(a2)
  {
    ReduceShape(a1);
    Compare(Reduce(a1), Reduce(a2))
  }

  // Soundness of the match

  /** q is mapped, its image has the same finality, and each successor of q is mapped to the matching successor. */
  ghost predicate Checked(a1: Automaton, a2: Automaton, m: map<int, int>, q: int)
  {
    && q in m
    && (q in a1.final <==> m[q] in a2.final)
    && forall c :: c in a1.alphabet ==> Next(a1, q, c) in m && m[Next(a1, q, c)] == Next(a2, m[q], c)
  }

  lemma CheckedExtends(a1: Automaton, a2: Automaton, m: map<int, int>, m': map<int, int>, q: int)
    requires Checked(a1, a2, m, q) && Extends(m, m')
    ensures Checked(a1, a2, m', q)
  {
  }

  /** A successful letter walk maps each successor of q1 on cs to the matching successor of q2. */
  lemma {:induction false} MatchLettersMaps(a1: Automaton, a2: Automaton, q1: int, q2: int, cs: seq<char>, p: Pairing)
    requires Dfa(a1) && 0 <= q1 < a1.n && (forall c :: c in cs ==> c in a1.alphabet) && Tracked(a1.n, p)
    requires MatchLetters(a1, a2, q1, q2, cs, p).Some?
    ensures forall c :: c in cs ==>
              Next(a1, q1, c) in MatchLetters(a1, a2, q1, q2, cs, p).value.m
              && MatchLetters(a1, a2, q1, q2, cs, p).value.m[Next(a1, q1, c)] == Next(a2, q2, c)
    decreases |cs|
  {
    if cs != [] {
      var r1 := Next(a1, q1, cs[0]);
      var r2 := Next(a2, q2, cs[0]);
      var p1 := if r1 in p.m then p else Pairing(p.m[r1 := r2], p.order + [r1]);
      NextInRange(a1, q1, cs[0]);
      assert Tracked(a1.n, p1);
      assert MatchLetters(a1, a2, q1, q2, cs, p) == MatchLetters(a1, a2, q1, q2, cs[1..], p1);
      MatchLettersMaps(a1, a2, q1, q2, cs[1..], p1);
      MatchLettersGrows(a1, a2, q1, q2, cs[1..], p1);
      assert forall c :: c in cs ==> c == cs[0] || c in cs[1..];
    }
  }

  /** The queue positions before k have been checked against the mapping. */
  ghost predicate Done(a1: Automaton, a2: Automaton, p: Pairing, k: int)
  {
    forall j :: 0 <= j < k && j < |p.order| ==> Checked(a1, a2, p.m, p.order[j])
  }

  /** One successful step of the walk checks queue position k and keeps earlier checks. */
  lemma MatchStep(a1: Automaton, a2: Automaton, p: Pairing, k: nat)
    requires Dfa(a1) && Tracked(a1.n, p) && k < |p.order| && Done(a1, a2, p, k)
    requires (p.order[k] in a1.final) == (p.m[p.order[k]] in a2.final)
    requires MatchLetters(a1, a2, p.order[k], p.m[p.order[k]], a1.alphabet, p).Some?
    ensures Done(a1, a2, MatchLetters(a1, a2, p.order[k], p.m[p.order[k]], a1.alphabet, p).value, k + 1)
  {
    var q1 := p.order[k];
    var q2 := p.m[q1];
    var p' := MatchLetters(a1, a2, q1, q2, a1.alphabet, p).value;
    MatchLettersGrows(a1, a2, q1, q2, a1.alphabet, p);
    MatchChecksHead(a1, a2, p, k);
    DoneExtends(a1, a2, p, p', k);
    assert p'.order[k] == p'.order[..|p.order|][k] == q1;
  }

  /** Checks done against a mapping survive extending the mapping and the queue. */
  lemma DoneExtends(a1: Automaton, a2: Automaton, p: Pairing, p': Pairing, k: nat)
    requires Done(a1, a2, p, k) && k <= |p.order| && Extends(p.m, p'.m)
    requires |p.order| <= |p'.order| && p'.order[..|p.order|] == p.order
    ensures Done(a1, a2, p', k)
  {
    forall j | 0 <= j < k && j < |p'.order| ensures Checked(a1, a2, p'.m, p'.order[j]) {
      assert p'.order[j] == p'.order[..|p.order|][j] == p.order[j];
      CheckedExtends(a1, a2, p.m, p'.m, p.order[j]);
    }
  }

  /** A successful letter walk from queue position k checks the state there. */
  lemma MatchChecksHead(a1: Automaton, a2: Automaton, p: Pairing, k: nat)
    requires Dfa(a1) && Tracked(a1.n, p) && k < |p.order|
    requires (p.order[k] in a1.final) == (p.m[p.order[k]] in a2.final)
    requires MatchLetters(a1, a2, p.order[k], p.m[p.order[k]], a1.alphabet, p).Some?
    ensures Checked(a1, a2, MatchLetters(a1, a2, p.order[k], p.m[p.order[k]], a1.alphabet, p).value.m, p.order[k])
  {
    var q1 := p.order[k];
    var q2 := p.m[q1];
    var p' := MatchLetters(a1, a2, q1, q2, a1.alphabet, p).value;
    MatchLettersGrows(a1, a2, q1, q2, a1.alphabet, p);
    MatchLettersMaps(a1, a2, q1, q2, a1.alphabet, p);
    assert q1 in p.m;
    assert p'.m[q1] == q2;
  }

  /** Every state of the first automaton the final mapping covers is checked against it. */
  ghost predicate Simulates(a1: Automaton, a2: Automaton, m: map<int, int>)
  {
    forall q {:trigger Checked(a1, a2, m, q)} :: q in m ==> Checked(a1, a2, m, q)
  }

  /** A successful walk ends in a mapping that extends the one it started from and checks every mapped state. */
  lemma {:induction false} MatchSimulates(a1: Automaton, a2: Automaton, p: Pairing, k: nat)
    requires Dfa(a1) && Tracked(a1.n, p) && k <= |p.order| && Done(a1, a2, p, k)
    requires Match(a1, a2, p, k).Some?
    ensures Extends(p.m, Match(a1, a2, p, k).value) && Simulates(a1, a2, Match(a1, a2, p, k).value)
    decreases Range(a1.n) - p.m.Keys, |p.order| - k
  {
    if k < |p.order| {
      var q1 := p.order[k];
      var q2 := p.m[q1];
      MatchLettersGrows(a1, a2, q1, q2, a1.alphabet, p);
      var p' := MatchLetters(a1, a2, q1, q2, a1.alphabet, p).value;
      MatchStep(a1, a2, p, k);
      MatchSimulates(a1, a2, p', k + 1);
    } else {
      forall q | q in p.m ensures Checked(a1, a2, p.m, q) {
        var j :| 0 <= j < |p.order| && p.order[j] == q;
      }
    }
  }

  /** A symbol outside the alphabet leads nowhere. */
  lemma NonLetterStuck(a: Automaton, q: int, c: char)
    requires Dfa(a) && c !in a.alphabet
    ensures Next(a, q, c) == -1
  {
    LetterKeys(a, q, c);
  }

  /** Following a word from mapped states ends in mapped states, or in -1 on both sides. */
  lemma {:induction false} SimulatedRun(a1: Automaton, a2: Automaton, m: map<int, int>, q: int, w: string)
    requires Dfa(a1) && Dfa(a2) && a1.alphabet == a2.alphabet && Simulates(a1, a2, m) && q in m
    ensures (Run(a1, q, w) in m && m[Run(a1, q, w)] == Run(a2, m[q], w))
         || (Run(a1, q, w) == -1 && Run(a2, m[q], w) == -1)
    decreases |w|
  {
    if w != [] {
      var c := w[0];
      if c in a1.alphabet {
        assert Checked(a1, a2, m, q);
        SimulatedRun(a1, a2, m, Next(a1, q, c), w[1..]);
      } else {
        NonLetterStuck(a1, q, c);
        NonLetterStuck(a2, m[q], c);
        RunStuck(a1, w[1..]);
        RunStuck(a2, w[1..]);
      }
    }
  }

  /** A mapping that checks every state it covers and pairs 0 with 0 makes the two automata accept the same words. */
  lemma SimulationSound(a1: Automaton, a2: Automaton, m: map<int, int>, w: string)
    requires Dfa(a1) && Dfa(a2) && a1.alphabet == a2.alphabet && Simulates(a1, a2, m)
    requires 0 in m && m[0] == 0
    ensures DfaAccepts(a1, w) <==> DfaAccepts(a2, w)
  {
    SimulatedRun(a1, a2, m, 0, w);
    var q := Run(a1, 0, w);
    if q in m {
      assert Checked(a1, a2, m, q);
    } else {
      assert -1 !in a1.final && -1 !in a2.final;
    }
  }

  // Properties of the comparison

  /** Comparison succeeds only on automata of one alphabet and one size. */
  lemma CompareShape(a1: Automaton, a2: Automaton)
    requires Dfa(a1)
    ensures a1.alphabet != a2.alphabet ==> !Compare(a1, a2)
    ensures a1.n != a2.n ==> !Compare(a1, a2)
  {
  }

  /** When comparison succeeds the two automata accept the same words. */
  lemma CompareSound(a1: Automaton, a2: Automaton, w: string)
    requires Dfa(a1) && Dfa(a2) && Compare(a1, a2)
    ensures DfaAccepts(a1, w) <==> DfaAccepts(a2, w)
  {
    var p := Pairing(map[0 := 0], [0]);
    assert Tracked(a1.n, p);
    MatchSimulates(a1, a2, p, 0);
    SimulationSound(a1, a2, Match(a1, a2, p, 0).value, w);
  }

  /** The mapping pairs every state with itself. */
  ghost predicate Identity(m: map<int, int>)
  {
    forall q :: q in m ==> m[q] == q
  }

  lemma {:induction false} MatchLettersIdentity(a: Automaton, q: int, cs: seq<char>, p: Pairing)
    requires Dfa(a) && 0 <= q < a.n && (forall c :: c in cs ==> c in a.alphabet) && Tracked(a.n, p) && Identity(p.m)
    ensures MatchLetters(a, a, q, q, cs, p).Some? && Identity(MatchLetters(a, a, q, q, cs, p).value.m)
    decreases |cs|
  {
    if cs != [] {
      var r := Next(a, q, cs[0]);
      NextInRange(a, q, cs[0]);
      var p1 := if r in p.m then p else Pairing(p.m[r := r], p.order + [r]);
      assert Tracked(a.n, p1);
      MatchLettersIdentity(a, q, cs[1..], p1);
    }
  }

  lemma {:induction false} MatchIdentity(a: Automaton, p: Pairing, k: nat)
    requires Dfa(a) && Tracked(a.n, p) && k <= |p.order| && Identity(p.m)
    ensures Match(a, a, p, k).Some?
    decreases Range(a.n) - p.m.Keys, |p.order| - k
  {
    if k < |p.order| {
      var q := p.order[k];
      MatchLettersIdentity(a, q, a.alphabet, p);
      MatchLettersGrows(a, a, q, q, a.alphabet, p);
      MatchIdentity(a, MatchLetters(a, a, q, q, a.alphabet, p).value, k + 1);
    }
  }

  /** Every complete DFA compares equal to itself. */
  lemma CompareReflexive(a: Automaton)
    requires Dfa(a)
    ensures Compare(a, a)
  {
    var p := Pairing(map[0 := 0], [0]);
    assert Tracked(a.n, p);
    MatchIdentity(a, p, 0);
  }

  // Properties of the equivalence test

  /** Every automaton is equal to itself, both as written and corrected. */
  lemma EqualReflexive(a: Automaton)
    requires WellFormed(a)
    ensures Equal(a, a) && EqualAsWritten(a, a)
  {
    ReduceShape(a);
    CompareReflexive(Reduce(a));
    MinimiseAsWrittenShape(Prepare(a));
    CompareReflexive(ReduceAsWritten(a));
  }

  /** When the corrected test reports two automata equal, they accept the same words. */
  lemma EqualSound(a1: Automaton, a2: Automaton, w: string)
    requires WellFormed(a1) && WellFormed(a2)
    ensures Equal(a1, a2) ==> (Accepts(a1, w) <==> Accepts(a2, w))
  {
    if Equal(a1, a2) {
      ReduceShape(a1);
      ReduceShape(a2);
      CompareSound(Reduce(a1), Reduce(a2), w);
      PreparePreserves(a1, w);
      PreparePreserves(a2, w);
    }
  }
}
