/**
 * The equivalence test on the elementary automata: the empty language equals
 * itself and differs from the empty word, and the single-letter automaton
 * shows the as-written minimiser accepting the empty word.
 */
module Examples {
  import opened Wrappers
  import opened Seqs
  import opened Automata
  import opened Language
  import opened Closure
  import opened Elimination
  import opened Determinisation
  import opened Completion
  import opened Minimisation
  import opened Quotients
  import opened Equivalence

  /** automate("O"): no word. */
  function EmptyLanguage(): (r: Automaton)
    ensures WellFormed(r) && r.final == [] && r.n == 1
  {
    Elementary([EmptyMarker]).value
  }

  /** automate("E"): the empty word only. */
  function EmptyWord(): (r: Automaton)
    ensures WellFormed(r) && r.final == [0] && r.n == 1
  {
    Elementary([Epsilon]).value
  }

  /** automate("a"): the word "a" only. */
  function LetterA(): (r: Automaton)
    ensures WellFormed(r) && r.final == [1] && r.n == 2 && r.transition == [Entry(0, 'a', [1])]
  {
    Elementary("a").value
  }

  // General facts the examples rest on

  /** Without epsilon moves, the closure of a state is the state alone. */
  lemma EpsilonFreeClosure(a: Automaton, i: int)
    requires IdsWithin(a, 0, a.n) && EpsilonFree(a) && 0 <= i < a.n
    ensures ClosureSet(a, i) == {i}
  {
    forall x | x in ClosureSet(a, i) ensures x == i {
      ClosureExact(a, i, x);
      var steps :| Silent(steps) && IsPath(a, i, steps, x);
      if steps != [] {
        LookupPresent(a.transition, i, Epsilon);
        assert false;
      }
    }
  }

  /** Without finals, the preparation stages produce no finals. */
  lemma PrepareNoFinals(a: Automaton)
    requires WellFormed(a) && a.final == []
    ensures Prepare(a).final == [] && Determinise(EliminateEpsilon(a)).final == []
  {
    var e := EliminateEpsilon(a);
    assert ToSet(e.final) == {};
    var d := Determinise(e);
    assert ToSet(d.final) == {};
    FirstMember(d.final);
  }

  /** A non-empty list has its first element among its members. */
  lemma FirstMember(s: seq<int>)
    ensures s == [] || s[0] in ToSet(s)
  {
  }

  /** When state 0 is final, state 0 stays final through the preparation stages. */
  lemma PrepareInitialFinal(a: Automaton)
    requires WellFormed(a) && 0 in a.final
    ensures 0 in Prepare(a).final && 0 in Determinise(EliminateEpsilon(a)).final
  {
    var e := EliminateEpsilon(a);
    assert 0 in ClosureSet(a, 0) * ToSet(a.final);
    assert 0 in SubsetConstruction(e).0[0] * ToSet(e.final);
  }

  // egal(O, O) and egal(O, E)

  /** The empty language is equal to itself. */
  lemma EmptyEqualsEmpty()
    ensures EqualAsWritten(EmptyLanguage(), EmptyLanguage())
    ensures Equal(EmptyLanguage(), EmptyLanguage())
  {
    EqualReflexive(EmptyLanguage());
  }

  /** The corrected test tells the empty language from the empty word. */
  lemma EmptyDiffersFromEpsilon()
    ensures !Equal(EmptyLanguage(), EmptyWord())
  {
    var o := EmptyLanguage();
    var e := EmptyWord();
    FinalAccepts(e, 0);
    assert !Accepts(o, []);
    EqualSound(o, e, []);
  }

  /** The as-written test agrees on these two, so egal(O, E) is False. */
  lemma EmptyDiffersFromEpsilonAsWritten()
    ensures !EqualAsWritten(EmptyLanguage(), EmptyWord())
  {
    var o := EmptyLanguage();
    var e := EmptyWord();
    PrepareNoFinals(o);
    PrepareInitialFinal(e);
    AsWrittenAgrees(Prepare(o));
    AsWrittenAgrees(Prepare(e));
    EmptyDiffersFromEpsilon();
  }

  // automate("a")

  /** Elimination keeps automate("a") as it is on finals: only state 1 is final. */
  lemma LetterEliminated()
    ensures 1 in EliminateEpsilon(LetterA()).final && 0 !in EliminateEpsilon(LetterA()).final
    ensures 1 in Dest(EliminateEpsilon(LetterA()), 0, 'a')
  {
    var a := LetterA();
    EpsilonFreeClosure(a, 0);
    EpsilonFreeClosure(a, 1);
    assert 1 in ClosureSet(a, 1) * ToSet(a.final);
    assert ClosureSet(a, 0) * ToSet(a.final) == {};
    assert Dest(a, 0, 'a') == [1];
    EliminateDestMembers(a, 0, 'a', 1);
  }

  /** The prepared automate("a") has a final state, but not state 0. */
  lemma LetterPrepared()
    ensures Prepare(LetterA()).final != [] && 0 !in Prepare(LetterA()).final
  {
    var e := EliminateEpsilon(LetterA());
    LetterEliminated();
    var sc := SubsetConstruction(e);
    assert 1 in Post(e, sc.0[0], 'a');
    DeterminiseDest(e, 0, 'a');
    var j := Dest(Determinise(e), 0, 'a')[0];
    assert 1 in sc.0[j] * ToSet(e.final);
    assert j in Determinise(e).final;
    assert sc.0[0] * ToSet(e.final) == {};
  }

  /**
   * automate("a") does not accept the empty word, yet the as-written pipeline
   * on it does; the corrected pipeline does not.
   */
  lemma LetterAsWrittenAcceptsEmpty()
    ensures !Accepts(LetterA(), [])
    ensures DfaAccepts(ReduceAsWritten(LetterA()), [])
    ensures !DfaAccepts(Reduce(LetterA()), [])
  {
    AcceptsUnfold(LetterA(), 0, []);
    LetterPrepared();
    AsWrittenWrong(Prepare(LetterA()));
    PreparePreserves(LetterA(), []);
  }
}
