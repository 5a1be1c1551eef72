/**
 * The meaning of an automaton, used to state what the reductions preserve.
 *
 * A run of a nondeterministic automaton is a sequence of steps, each naming the
 * symbol read (a letter, or epsilon for a silent move) and the state reached;
 * the word of a run is its letters with the epsilon moves erased. A word is
 * accepted when a run from the initial state 0 that spells it ends in a final
 * state.
 *
 * A deterministic complete automaton also has a direct reading: Next follows
 * the single destination of (q, c), and Run follows a whole word.
 */
module Language {
  import opened Seqs
  import opened Automata

  datatype Step = Step(symbol: char, target: int)

  /** steps is a run of a from p that ends in q. */
  ghost predicate IsPath(a: Automaton, p: int, steps: seq<Step>, q: int)
    decreases |steps|
  {
    if steps == [] then p == q
    else steps[0].target in Dest(a, p, steps[0].symbol) && IsPath(a, steps[0].target, steps[1..], q)
  }

  /** The letters read along steps, epsilon moves erased. */
  function Word(steps: seq<Step>): string
  {
    if steps == [] then []
    else (if steps[0].symbol == Epsilon then [] else [steps[0].symbol]) + Word(steps[1..])
  }

  /** Every step is an epsilon move. */
  predicate Silent(steps: seq<Step>)
  {
    forall i :: 0 <= i < |steps| ==> steps[i].symbol == Epsilon
  }

  /** q can be reached from p by epsilon moves alone. */
  ghost predicate EpsReach(a: Automaton, p: int, q: int)
  {
    exists steps :: Silent(steps) && IsPath(a, p, steps, q)
  }

  /** Some run from p spelling w ends in a final state. */
  ghost predicate AcceptsFrom(a: Automaton, p: int, w: string)
  {
    exists steps, q :: IsPath(a, p, steps, q) && q in a.final && Word(steps) == w
  }

  /** The language of a: runs start in state 0. */
  ghost predicate Accepts(a: Automaton, w: string)
  {
    AcceptsFrom(a, 0, w)
  }

  /** Runs compose: a run to m followed by a run from m is a run. */
  lemma {:induction false} PathConcat(a: Automaton, p: int, s1: seq<Step>, m: int, s2: seq<Step>, q: int)
    requires IsPath(a, p, s1, m) && IsPath(a, m, s2, q)
    ensures IsPath(a, p, s1 + s2, q)
    decreases |s1|
  {
    if s1 == [] {
      assert s1 + s2 == s2;
    } else {
      var s := s1 + s2;
      assert s[0] == s1[0] && s[1..] == s1[1..] + s2;
      PathConcat(a, s1[0].target, s1[1..], m, s2, q);
    }
  }

  /** The word of a concatenation of runs is the concatenation of their words. */
  lemma {:induction false} WordConcat(s1: seq<Step>, s2: seq<Step>)
    ensures Word(s1 + s2) == Word(s1) + Word(s2)
    decreases |s1|
  {
    if s1 == [] {
      assert s1 + s2 == s2;
    } else {
      var s := s1 + s2;
      assert s[0] == s1[0] && s[1..] == s1[1..] + s2;
      WordConcat(s1[1..], s2);
    }
  }

  /** An epsilon move extends an epsilon reach. */
  lemma EpsReachStep(a: Automaton, p: int, m: int, q: int)
    requires EpsReach(a, p, m) && q in Dest(a, m, Epsilon)
    ensures EpsReach(a, p, q)
  {
    var s1 :| Silent(s1) && IsPath(a, p, s1, m);
    var s2 := [Step(Epsilon, q)];
    assert IsPath(a, q, s2[1..], q);
    PathConcat(a, p, s1, m, s2, q);
    assert Silent(s1 + s2);
  }

  /** Every state reaches itself by no move at all. */
  lemma EpsReachRefl(a: Automaton, p: int)
    ensures EpsReach(a, p, p)
  {
    assert Silent([]) && IsPath(a, p, [], p);
  }

  /** The silent runs spell the empty word. */
  lemma {:induction false} SilentWord(steps: seq<Step>)
    requires Silent(steps)
    ensures Word(steps) == []
    decreases |steps|
  {
    if steps != [] {
      SilentWord(steps[1..]);
    }
  }

  /** A final state accepts the empty word. */
  lemma FinalAccepts(a: Automaton, q: int)
    requires q in a.final
    ensures AcceptsFrom(a, q, [])
  {
    assert IsPath(a, q, [], q) && Word([]) == [];
  }

  /** A move on x to q, then an accepting run from q: p accepts x (nothing for epsilon) followed by w. */
  lemma AcceptsCons(a: Automaton, p: int, x: char, q: int, w: string)
    requires q in Dest(a, p, x) && AcceptsFrom(a, q, w)
    ensures AcceptsFrom(a, p, (if x == Epsilon then [] else [x]) + w)
  {
    var steps, f :| IsPath(a, q, steps, f) && f in a.final && Word(steps) == w;
    var s := [Step(x, q)] + steps;
    assert s[0] == Step(x, q) && s[1..] == steps;
    assert IsPath(a, p, s, f);
  }

  /** Epsilon moves from p to q, then acceptance from q: p accepts the same word. */
  lemma AcceptsAfterReach(a: Automaton, p: int, q: int, w: string)
    requires EpsReach(a, p, q) && AcceptsFrom(a, q, w)
    ensures AcceptsFrom(a, p, w)
  {
    var s1 :| Silent(s1) && IsPath(a, p, s1, q);
    var s2, f :| IsPath(a, q, s2, f) && f in a.final && Word(s2) == w;
    PathConcat(a, p, s1, q, s2, f);
    WordConcat(s1, s2);
    SilentWord(s1);
  }

  /** A run from p to q, then acceptance from q: p accepts the run's word followed by w. */
  lemma PathThenAccepts(a: Automaton, p: int, steps: seq<Step>, q: int, w: string)
    requires IsPath(a, p, steps, q) && AcceptsFrom(a, q, w)
    ensures AcceptsFrom(a, p, Word(steps) + w)
  {
    var s2, f :| IsPath(a, q, s2, f) && f in a.final && Word(s2) == w;
    PathConcat(a, p, steps, q, s2, f);
    WordConcat(steps, s2);
  }

  /** An automaton without epsilon entries has no epsilon move. */
  lemma NoEpsilonMove(a: Automaton, p: int)
    requires EpsilonFree(a)
    ensures Dest(a, p, Epsilon) == []
  {
    LookupPresent(a.transition, p, Epsilon);
  }

  /**
   * Without epsilon moves, acceptance reads the word letter by letter: p accepts
   * the empty word when it is final, and c.w when some c-destination accepts w.
   */
  lemma AcceptsUnfold(a: Automaton, p: int, w: string)
    requires EpsilonFree(a)
    ensures AcceptsFrom(a, p, w) <==>
      if w == [] then p in a.final
      else exists q :: q in Dest(a, p, w[0]) && AcceptsFrom(a, q, w[1..])
  {
    if AcceptsFrom(a, p, w) {
      var steps: seq<Step>, f :| IsPath(a, p, steps, f) && f in a.final && Word(steps) == w;
      if steps != [] {
        NoEpsilonMove(a, p);
        var q := steps[0].target;
        assert Word(steps) == [steps[0].symbol] + Word(steps[1..]);
        assert q in Dest(a, p, w[0]) && IsPath(a, q, steps[1..], f);
      }
    }
    if w == [] {
      if p in a.final {
        FinalAccepts(a, p);
      }
    } else if q :| q in Dest(a, p, w[0]) && AcceptsFrom(a, q, w[1..]) {
      NoEpsilonMove(a, p);
      AcceptsCons(a, p, w[0], q, w[1..]);
      assert [w[0]] + w[1..] == w;
    }
  }

  // Deterministic reading

  /** The single successor of q on c, or -1 when (q, c) has no destination. */
  function Next(a: Automaton, q: int, c: char): int
  {
    var d := Dest(a, q, c);
    if d == [] then -1 else d[0]
  }

  /** The state reached from q by following w letter by letter. */
  function Run(a: Automaton, q: int, w: string): int
    decreases |w|
  {
    if w == [] then q else Run(a, Next(a, q, w[0]), w[1..])
  }

  /** The deterministic reading of acceptance: the run from 0 ends in a final state. */
  predicate DfaAccepts(a: Automaton, w: string)
  {
    Run(a, 0, w) in a.final
  }

  /** A missing transition leads to -1, which no letter leaves. */
  lemma {:induction false} RunStuck(a: Automaton, w: string)
    requires IdsWithin(a, 0, a.n)
    ensures Run(a, -1, w) == -1
    decreases |w|
  {
    if w != [] {
      DestWithin(a, 0, a.n, -1, w[0]);
      RunStuck(a, w[1..]);
    }
  }
}
