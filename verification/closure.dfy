/**
 * The epsilon closure of every state: the states reachable from it by epsilon
 * moves alone, computed as a fixpoint. Starting from [i], each round gathers
 * the epsilon successors of the states added in the previous round, keeps
 * those still among the candidates (the states not yet in the closure), and
 * stops when none is left. The candidate set shrinks every round, so the
 * computation ends even when the epsilon edges form cycles.
 */
module Closure {
  import opened Seqs
  import opened Automata
  import opened Language

  /** The epsilon destinations of each state of frontier, in order, end to end. */
  function EpsilonSuccessors(a: Automaton, frontier: seq<int>): seq<int>
    decreases |frontier|
  {
    if frontier == [] then [] else Dest(a, frontier[0], Epsilon) + EpsilonSuccessors(a, frontier[1..])
  }

  /**
   * One closure round and the rounds after it: acc is the closure so far,
   * frontier the states added last, cand the states not yet in acc.
   */
  function Expand(a: Automaton, cand: set<int>, frontier: seq<int>, acc: seq<int>): (r: seq<int>)
    ensures |acc| <= |r| && r[..|acc|] == acc
    ensures forall x :: x in r ==> x in acc || x in cand
    decreases cand
  {
    var added := Keep(EpsilonSuccessors(a, frontier), cand);
    if added == [] then acc
    else
      assert added[0] in cand && added[0] !in cand - ToSet(added);
      Expand(a, cand - ToSet(added), added, acc + added)
  }

  /** The epsilon closure of state i, starting with i itself. */
  function StateClosure(a: Automaton, i: int): (r: seq<int>)
    requires 0 <= i < a.n
    ensures |r| >= 1 && r[0] == i
    ensures forall x :: x in r ==> 0 <= x < a.n
  {
    Expand(a, Range(a.n) - {i}, [i], [i])
  }

  /**
   * The closures of all states, as `acces_epsilon` returns them: entry i is the
   * closure of state i, which lists exactly the states reachable from i by
   * epsilon moves.
   */
  function EpsilonClosures(a: Automaton): (r: seq<seq<int>>)
    ensures |r| == a.n
    ensures forall i :: 0 <= i < a.n ==> r[i] == StateClosure(a, i)
    ensures IdsWithin(a, 0, a.n) ==> forall i, x :: 0 <= i < a.n ==> (x in r[i] <==> EpsReach(a, i, x))
  {
    ClosuresExact(a);
    seq(a.n, i requires 0 <= i < a.n => StateClosure(a, i))
  }

  lemma {:induction false} SuccessorsMembers(a: Automaton, frontier: seq<int>, x: int)
    ensures x in EpsilonSuccessors(a, frontier) <==> exists e :: e in frontier && x in Dest(a, e, Epsilon)
    decreases |frontier|
  {
    if frontier != [] {
      SuccessorsMembers(a, frontier[1..], x);
      assert forall e :: e in frontier <==> e == frontier[0] || e in frontier[1..];
    }
  }

  /** Each round adds only epsilon successors of reached states, so everything added is reachable. */
  lemma {:induction false} ExpandReachable(a: Automaton, root: int, cand: set<int>, frontier: seq<int>, acc: seq<int>)
    requires forall x :: x in acc ==> EpsReach(a, root, x)
    requires forall x :: x in frontier ==> x in acc
    ensures forall x :: x in Expand(a, cand, frontier, acc) ==> EpsReach(a, root, x)
    decreases cand
  {
    var added := Keep(EpsilonSuccessors(a, frontier), cand);
    if added != [] {
      forall x | x in added
        ensures EpsReach(a, root, x)
      {
        SuccessorsMembers(a, frontier, x);
        var e :| e in frontier && x in Dest(a, e, Epsilon);
        EpsReachStep(a, root, e, x);
      }
      assert added[0] in cand && added[0] !in cand - ToSet(added);
      ExpandReachable(a, root, cand - ToSet(added), added, acc + added);
    }
  }

  /**
   * The closure is closed under in-range epsilon moves: acc and cand split the
   * states, and every state of acc outside the frontier already has its
   * epsilon successors in acc.
   */
  lemma {:induction false} ExpandClosed(a: Automaton, cand: set<int>, frontier: seq<int>, acc: seq<int>)
    requires forall x :: 0 <= x < a.n ==> x in acc || x in cand
    requires forall x :: x in acc ==> x !in cand
    requires forall x :: x in frontier ==> x in acc
    requires forall p, x :: p in acc && p !in frontier && x in Dest(a, p, Epsilon) && 0 <= x < a.n ==> x in acc
    ensures forall p, x :: p in Expand(a, cand, frontier, acc) && x in Dest(a, p, Epsilon) && 0 <= x < a.n
              ==> x in Expand(a, cand, frontier, acc)
    decreases cand
  {
    var succ := EpsilonSuccessors(a, frontier);
    var added := Keep(succ, cand);
    forall p, x | p in frontier && x in Dest(a, p, Epsilon)
      ensures x in succ
    {
      SuccessorsMembers(a, frontier, x);
    }
    if added != [] {
      assert added[0] in cand && added[0] !in cand - ToSet(added);
      ExpandClosed(a, cand - ToSet(added), added, acc + added);
    }
  }

  /** Every state of the closure of i is reachable from i by epsilon moves. */
  lemma ClosureReachable(a: Automaton, i: int, x: int)
    requires 0 <= i < a.n
    requires x in StateClosure(a, i)
    ensures EpsReach(a, i, x)
  {
    EpsReachRefl(a, i);
    ExpandReachable(a, i, Range(a.n) - {i}, [i], [i]);
  }

  /** The closure of i contains every in-range epsilon successor of each of its states. */
  lemma ClosureClosed(a: Automaton, i: int, p: int, x: int)
    requires 0 <= i < a.n
    requires p in StateClosure(a, i) && x in Dest(a, p, Epsilon) && 0 <= x < a.n
    ensures x in StateClosure(a, i)
  {
    ExpandClosed(a, Range(a.n) - {i}, [i], [i]);
  }

  /** Along an epsilon run from a state of the closure, every state stays in the closure. */
  lemma {:induction false} ClosurePath(a: Automaton, i: int, p: int, steps: seq<Step>, q: int)
    requires IdsWithin(a, 0, a.n) && 0 <= i < a.n
    requires p in StateClosure(a, i) && Silent(steps) && IsPath(a, p, steps, q)
    ensures q in StateClosure(a, i)
    decreases |steps|
  {
    if steps != [] {
      var m := steps[0].target;
      DestWithin(a, 0, a.n, p, Epsilon);
      ClosureClosed(a, i, p, m);
      ClosurePath(a, i, m, steps[1..], q);
    }
  }

  /**
   * For a well-formed automaton the closure of i is exactly the set of states
   * reachable from i by epsilon moves.
   */
  lemma ClosureExact(a: Automaton, i: int, x: int)
    requires IdsWithin(a, 0, a.n) && 0 <= i < a.n
    ensures x in StateClosure(a, i) <==> EpsReach(a, i, x)
  {
    if x in StateClosure(a, i) {
      ClosureReachable(a, i, x);
    }
    if EpsReach(a, i, x) {
      var steps :| Silent(steps) && IsPath(a, i, steps, x);
      ClosurePath(a, i, i, steps, x);
    }
  }

  /** ClosureExact for every state at once. */
  lemma ClosuresExact(a: Automaton)
    ensures IdsWithin(a, 0, a.n) ==> forall i, x :: 0 <= i < a.n ==> (x in StateClosure(a, i) <==> EpsReach(a, i, x))
  {
    if IdsWithin(a, 0, a.n) {
      forall i, x | 0 <= i < a.n
        ensures x in StateClosure(a, i) <==> EpsReach(a, i, x)
      {
        ClosureExact(a, i, x);
      }
    }
  }
}
