/**
 * Epsilon elimination. The result has the same states and alphabet; state i
 * is final when its epsilon closure meets the old finals, and the entry of
 * (i, x) lists, in increasing order, every state in the closure of some q with
 * q an x-destination of a state p in the closure of i. Empty entries are not
 * stored.
 */
module Elimination {
  import opened Wrappers
  import opened Seqs
  import opened Automata
  import opened Language
  import opened Closure

  /** The epsilon closure of state i, as a set: `set(acces[i])`. */
  function ClosureSet(a: Automaton, i: int): (r: set<int>)
    requires 0 <= i < a.n
    ensures i in r
    ensures forall x :: x in r ==> 0 <= x < a.n
  {
    ToSet(EpsilonClosures(a)[i])
  }

  /** The union of the closures of the states of qs. */
  function CloseAll(a: Automaton, qs: seq<int>): (r: set<int>)
    requires Within(qs, 0, a.n)
    ensures forall y :: y in r ==> 0 <= y < a.n
    decreases |qs|
  {
    if qs == [] then {} else ClosureSet(a, qs[0]) + CloseAll(a, qs[1..])
  }

  /** The union, over the states p of ps, of the closures of p's x-destinations. */
  function Gather(a: Automaton, ps: seq<int>, x: char): (r: set<int>)
    requires IdsWithin(a, 0, a.n)
    ensures forall y :: y in r ==> 0 <= y < a.n
    decreases |ps|
  {
    if ps == [] then {}
    else
      DestWithin(a, 0, a.n, ps[0], x);
      CloseAll(a, Dest(a, ps[0], x)) + Gather(a, ps[1..], x)
  }

  /** The destinations of (i, x) after elimination, as a set: closure, one x move, closure. */
  function EpsTargets(a: Automaton, i: int, x: char): (r: set<int>)
    requires IdsWithin(a, 0, a.n) && 0 <= i < a.n
    ensures forall y :: y in r ==> 0 <= y < a.n
  {
    Gather(a, StateClosure(a, i), x)
  }

  /** A stored entry: a non-empty, increasing list of states of a. */
  ghost predicate Tidy(a: Automaton, e: Entry)
  {
    e.dests != [] && StrictlyIncreasing(e.dests) && Within(e.dests, 0, a.n)
  }

  /** The entries stored for state i, one per letter of xs whose target set is not empty. */
  function RowEntries(a: Automaton, i: int, xs: seq<char>): seq<Entry>
    requires IdsWithin(a, 0, a.n) && 0 <= i < a.n
    decreases |xs|
  {
    if xs == [] then []
    else
      var dest := EpsTargets(a, i, xs[0]);
      var rest := RowEntries(a, i, xs[1..]);
      if dest == {} then rest else [Entry(i, xs[0], Enumerate(dest, 0, a.n))] + rest
  }

  /** Every entry of t has a source in [lo, n), a letter of a, and a tidy list of destinations. */
  ghost predicate Stored(a: Automaton, t: seq<Entry>, lo: int)
  {
    forall k :: 0 <= k < |t| ==> lo <= t[k].source < a.n && t[k].symbol in a.alphabet && Tidy(a, t[k])
  }

  lemma StoredConcat(a: Automaton, t: seq<Entry>, u: seq<Entry>, lo: int)
    requires Stored(a, t, lo) && Stored(a, u, lo)
    ensures Stored(a, t + u, lo)
  {
    assert forall k :: 0 <= k < |t + u| ==> (t + u)[k] == if k < |t| then t[k] else u[k - |t|];
  }

  /** The entries stored for states i, i+1, ..., n-1, in that order. */
  function EntriesFrom(a: Automaton, i: nat): seq<Entry>
    requires IdsWithin(a, 0, a.n)
    decreases a.n - i
  {
    if i >= a.n then [] else RowEntries(a, i, a.alphabet) + EntriesFrom(a, i + 1)
  }

  /** Every entry of row i has source i, a letter of xs, and a tidy list of destinations. */
  lemma {:induction false} RowStored(a: Automaton, i: int, xs: seq<char>)
    requires IdsWithin(a, 0, a.n) && 0 <= i < a.n
    ensures forall k :: 0 <= k < |RowEntries(a, i, xs)| ==>
              RowEntries(a, i, xs)[k].source == i && RowEntries(a, i, xs)[k].symbol in xs
              && Tidy(a, RowEntries(a, i, xs)[k])
    decreases |xs|
  {
    if xs != [] {
      var dest := EpsTargets(a, i, xs[0]);
      var rest := RowEntries(a, i, xs[1..]);
      RowStored(a, i, xs[1..]);
      if dest != {} {
        var sorted := Enumerate(dest, 0, a.n);
        assert sorted != [] by {
          var y :| y in dest;
          assert y in sorted;
        }
        var e := Entry(i, xs[0], sorted);
        assert Tidy(a, e);
        assert forall k :: 0 < k <= |rest| ==> ([e] + rest)[k] == rest[k - 1];
      }
    }
  }

  lemma {:induction false} EntriesStored(a: Automaton, i: nat)
    requires IdsWithin(a, 0, a.n)
    ensures Stored(a, EntriesFrom(a, i), i)
    decreases a.n - i
  {
    if i < a.n {
      RowStored(a, i, a.alphabet);
      EntriesStored(a, i + 1);
      StoredConcat(a, RowEntries(a, i, a.alphabet), EntriesFrom(a, i + 1), i);
    }
  }

  /** The equivalent automaton without epsilon moves. */
  function EliminateEpsilon(a: Automaton): (r: Automaton)
    requires IdsWithin(a, 0, a.n)
    ensures r.n == a.n && r.alphabet == a.alphabet && r.name == a.name
    ensures forall i :: i in r.final <==> 0 <= i < a.n && ClosureSet(a, i) * ToSet(a.final) != {}
    ensures StrictlyIncreasing(r.final)
    ensures IdsWithin(r, 0, r.n)
    ensures forall k :: 0 <= k < |r.transition| ==> r.transition[k].symbol in a.alphabet
    ensures forall k :: 0 <= k < |r.transition| ==>
              r.transition[k].dests != [] && StrictlyIncreasing(r.transition[k].dests)
    ensures Epsilon !in a.alphabet ==> EpsilonFree(r)
  {
    var acces := EpsilonClosures(a);
    var final := MeetingIndices(seq(a.n, i requires 0 <= i < a.n => ToSet(acces[i])), ToSet(a.final));
    EntriesStored(a, 0);
    Automaton(a.alphabet, a.n, final, EntriesFrom(a, 0), a.name)
  }

  // The entry of (i, x)

  lemma {:induction false} RowLookup(a: Automaton, i: int, xs: seq<char>, p: int, x: char)
    requires IdsWithin(a, 0, a.n) && 0 <= i < a.n
    ensures Lookup(RowEntries(a, i, xs), p, x)
         == if p == i && x in xs && EpsTargets(a, i, x) != {} then Some(Enumerate(EpsTargets(a, i, x), 0, a.n))
            else None
    decreases |xs|
  {
    if xs != [] {
      var rest := RowEntries(a, i, xs[1..]);
      RowLookup(a, i, xs[1..], p, x);
      var dest := EpsTargets(a, i, xs[0]);
      if dest != {} {
        LookupAppend([Entry(i, xs[0], Enumerate(dest, 0, a.n))], rest, p, x);
      }
      assert x in xs <==> x == xs[0] || x in xs[1..];
    }
  }

  lemma {:induction false} EntriesLookup(a: Automaton, i: nat, p: int, x: char)
    requires IdsWithin(a, 0, a.n)
    ensures Lookup(EntriesFrom(a, i), p, x)
         == if i <= p < a.n && x in a.alphabet && EpsTargets(a, p, x) != {}
            then Some(Enumerate(EpsTargets(a, p, x), 0, a.n))
            else None
    decreases a.n - i
  {
    if i < a.n {
      var row := RowEntries(a, i, a.alphabet);
      var rest := EntriesFrom(a, i + 1);
      assert EntriesFrom(a, i) == row + rest;
      EntriesLookup(a, i + 1, p, x);
      RowLookup(a, i, a.alphabet, p, x);
      LookupAppend(row, rest, p, x);
    }
  }

  /**
   * After elimination (i, x) is present exactly when i is a state, x a letter
   * and the target set is not empty; its destinations are that set, sorted.
   */
  lemma EliminateDest(a: Automaton, i: int, x: char)
    requires IdsWithin(a, 0, a.n)
    ensures Has(EliminateEpsilon(a), i, x)
        <==> 0 <= i < a.n && x in a.alphabet && EpsTargets(a, i, x) != {}
    ensures 0 <= i < a.n ==> ToSet(Dest(EliminateEpsilon(a), i, x)) == (if x in a.alphabet then EpsTargets(a, i, x) else {})
  {
    EntriesLookup(a, 0, i, x);
  }

  // The target set, by its definition

  lemma {:induction false} CloseAllMembers(a: Automaton, qs: seq<int>, y: int)
    requires Within(qs, 0, a.n)
    ensures y in CloseAll(a, qs) <==> exists q :: q in qs && 0 <= q < a.n && y in ClosureSet(a, q)
    decreases |qs|
  {
    if qs != [] {
      CloseAllMembers(a, qs[1..], y);
      assert forall q :: q in qs <==> q == qs[0] || q in qs[1..];
    }
  }

  lemma {:induction false} GatherMembers(a: Automaton, ps: seq<int>, x: char, y: int)
    requires IdsWithin(a, 0, a.n)
    ensures y in Gather(a, ps, x)
        <==> exists p, q :: p in ps && q in Dest(a, p, x) && 0 <= q < a.n && y in ClosureSet(a, q)
    decreases |ps|
  {
    if ps != [] {
      GatherMembers(a, ps[1..], x, y);
      DestWithin(a, 0, a.n, ps[0], x);
      CloseAllMembers(a, Dest(a, ps[0], x), y);
      assert forall p :: p in ps <==> p == ps[0] || p in ps[1..];
    }
  }

  /**
   * y is an x-destination of i after elimination exactly when some p in the
   * closure of i has an x-move to some q whose closure contains y.
   */
  lemma EliminateDestMembers(a: Automaton, i: int, x: char, y: int)
    requires IdsWithin(a, 0, a.n) && 0 <= i < a.n && x in a.alphabet
    ensures y in Dest(EliminateEpsilon(a), i, x)
        <==> exists p, q :: p in ClosureSet(a, i) && q in Dest(a, p, x) && 0 <= q < a.n && y in ClosureSet(a, q)
  {
    EliminateDest(a, i, x);
    GatherMembers(a, StateClosure(a, i), x, y);
  }

  /** Elimination keeps a well-formed automaton well formed. */
  lemma EliminateWellFormed(a: Automaton)
    requires WellFormed(a)
    ensures WellFormed(EliminateEpsilon(a)) && EpsilonFree(EliminateEpsilon(a))
  {
  }

  // The language is kept

  /**
   * A run of a from a state p of the closure of i to a final state is matched
   * by an accepting run of the eliminated automaton from i spelling the same word.
   */
  lemma {:induction false} EliminateComplete(a: Automaton, i: int, p: int, steps: seq<Step>, f: int)
    requires WellFormed(a) && 0 <= i < a.n && p in ClosureSet(a, i)
    requires IsPath(a, p, steps, f) && f in a.final
    ensures AcceptsFrom(EliminateEpsilon(a), i, Word(steps))
    decreases |steps|
  {
    var e := EliminateEpsilon(a);
    if steps == [] {
      assert f in ClosureSet(a, i) * ToSet(a.final);
      FinalAccepts(e, i);
    } else {
      var x, q := steps[0].symbol, steps[0].target;
      DestWithin(a, 0, a.n, p, x);
      if x == Epsilon {
        ClosureClosed(a, i, p, q);
        EliminateComplete(a, i, q, steps[1..], f);
      } else {
        LookupPresent(a.transition, p, x);
        assert x in a.alphabet;
        assert p in ClosureSet(a, i) && q in Dest(a, p, x) && 0 <= q < a.n && q in ClosureSet(a, q);
        EliminateDestMembers(a, i, x, q);
        EliminateComplete(a, q, q, steps[1..], f);
        AcceptsCons(e, i, x, q, Word(steps[1..]));
      }
    }
  }

  /** An accepting run of the eliminated automaton from i is matched by one of a from i. */
  lemma {:induction false} EliminateSound(a: Automaton, i: int, steps: seq<Step>, f: int)
    requires WellFormed(a) && 0 <= i < a.n
    requires IsPath(EliminateEpsilon(a), i, steps, f) && f in EliminateEpsilon(a).final
    ensures AcceptsFrom(a, i, Word(steps))
    decreases |steps|
  {
    var e := EliminateEpsilon(a);
    if steps == [] {
      NonEmptyMember(ClosureSet(a, i) * ToSet(a.final));
      var g :| g in ClosureSet(a, i) * ToSet(a.final);
      ClosureExact(a, i, g);
      FinalAccepts(a, g);
      AcceptsAfterReach(a, i, g, []);
    } else {
      var x, y := steps[0].symbol, steps[0].target;
      EliminateDest(a, i, x);
      DestWithin(e, 0, e.n, i, x);
      EliminateDestMembers(a, i, x, y);
      var p, q :| p in ClosureSet(a, i) && q in Dest(a, p, x) && 0 <= q < a.n && y in ClosureSet(a, q);
      EliminateSound(a, y, steps[1..], f);
      ClosureExact(a, q, y);
      AcceptsAfterReach(a, q, y, Word(steps[1..]));
      AcceptsCons(a, p, x, q, Word(steps[1..]));
      ClosureExact(a, i, p);
      AcceptsAfterReach(a, i, p, [x] + Word(steps[1..]));
    }
  }

  /** Elimination keeps the language: the eliminated automaton accepts exactly the words a accepts. */
  lemma EliminatePreserves(a: Automaton, w: string)
    requires WellFormed(a)
    ensures Accepts(EliminateEpsilon(a), w) <==> Accepts(a, w)
  {
    if Accepts(a, w) {
      var steps, f :| IsPath(a, 0, steps, f) && f in a.final && Word(steps) == w;
      EliminateComplete(a, 0, 0, steps, f);
    }
    if Accepts(EliminateEpsilon(a), w) {
      var steps, f :| IsPath(EliminateEpsilon(a), 0, steps, f) && f in EliminateEpsilon(a).final && Word(steps) == w;
      EliminateSound(a, 0, steps, f);
    }
  }
}
