/**
 * The automaton value and its two primitive operations: the elementary
 * constructor and the transition accumulator.
 *
 * States are the integers 0 .. n-1 and state 0 is the initial state. The
 * transition dictionary sends a (state, symbol) pair to the list of its
 * destinations; an absent key means "no such transition". A symbol is a letter
 * of the alphabet, or the epsilon marker while an automaton is being assembled.
 *
 * The dictionary is represented by its write history: a sequence of entries in
 * the order they were stored, where a later entry for a key overrides every
 * earlier one. A store `d[k] = v` appends an entry and `d.update(e)` appends
 * all of e's entries, so the value of a key is the last entry written for it.
 */
module Automata {
  import opened Wrappers
  import opened Seqs

  /** The epsilon marker ("E") and the empty-language marker ("O"). */
  const Epsilon: char := 'E'
  const EmptyMarker: char := 'O'

  /** The alphabet of every elementary automaton. */
  const Alphabet: seq<char> := "abc"

  /** One store into the transition dictionary: key (source, symbol), value dests. */
  datatype Entry = Entry(source: int, symbol: char, dests: seq<int>)

  datatype Automaton = Automaton(
    alphabet: seq<char>,
    n: nat,
    final: seq<int>,
    transition: seq<Entry>,
    name: string)

  /** The constructor's only failure: a symbol outside the alphabet and the two markers. */
  datatype Error = InvalidSymbol

  /** The value currently stored under (q, c): the last entry written for that key. */
  function Lookup(t: seq<Entry>, q: int, c: char): Option<seq<int>>
    decreases |t|
  {
    if t == [] then None
    else if t[|t| - 1].source == q && t[|t| - 1].symbol == c then Some(t[|t| - 1].dests)
    else Lookup(t[..|t| - 1], q, c)
  }

  /** The key (q, c) is present (Python's `(q, c) in a.transition`). */
  predicate Has(a: Automaton, q: int, c: char)
  {
    Lookup(a.transition, q, c).Some?
  }

  /** The destinations of (q, c); none when the key is absent. */
  function Dest(a: Automaton, q: int, c: char): seq<int>
  {
    match Lookup(a.transition, q, c)
    case Some(d) => d
    case None => []
  }

  /** A key is present exactly when some entry was written for it. */
  lemma {:induction false} LookupPresent(t: seq<Entry>, q: int, c: char)
    ensures Lookup(t, q, c).Some? <==> exists i :: 0 <= i < |t| && t[i].source == q && t[i].symbol == c
    ensures Lookup(t, q, c).Some? ==> exists i :: 0 <= i < |t| && t[i] == Entry(q, c, Lookup(t, q, c).value)
    decreases |t|
  {
    if t != [] {
      var u := t[..|t| - 1];
      LookupPresent(u, q, c);
      assert forall i :: 0 <= i < |u| ==> u[i] == t[i];
    }
  }

  /** Storing the entries of u after those of t: u's value wins wherever it has one. */
  lemma {:induction false} LookupAppend(t: seq<Entry>, u: seq<Entry>, q: int, c: char)
    ensures Lookup(t + u, q, c) == if Lookup(u, q, c).Some? then Lookup(u, q, c) else Lookup(t, q, c)
    decreases |u|
  {
    if u == [] {
      assert t + u == t;
    } else {
      var v := u[..|u| - 1];
      assert (t + u)[..|t + u| - 1] == t + v;
      LookupAppend(t, v, q, c);
    }
  }

  /** Every state id that a mentions, as a final or in a stored entry, lies in [lo, hi). */
  ghost predicate IdsWithin(a: Automaton, lo: int, hi: int)
  {
    && Within(a.final, lo, hi)
    && forall i :: 0 <= i < |a.transition| ==>
         lo <= a.transition[i].source < hi && Within(a.transition[i].dests, lo, hi)
  }

  /** Under IdsWithin, every present key has its source in range, and every Dest stays in range. */
  lemma DestWithin(a: Automaton, lo: int, hi: int, q: int, c: char)
    requires IdsWithin(a, lo, hi)
    ensures Has(a, q, c) ==> lo <= q < hi
    ensures Within(Dest(a, q, c), lo, hi)
  {
    LookupPresent(a.transition, q, c);
  }

  /**
   * The invariant every automaton built by this library keeps: at least the
   * initial state, ids in 0 .. n-1, keys labelled by a letter or by epsilon,
   * and the epsilon marker is not itself a letter.
   */
  ghost predicate WellFormed(a: Automaton)
  {
    && a.n >= 1
    && Epsilon !in a.alphabet
    && IdsWithin(a, 0, a.n)
    && forall i :: 0 <= i < |a.transition| ==>
         a.transition[i].symbol == Epsilon || a.transition[i].symbol in a.alphabet
  }

  /** No epsilon key is stored. */
  ghost predicate EpsilonFree(a: Automaton)
  {
    forall i :: 0 <= i < |a.transition| ==> a.transition[i].symbol != Epsilon
  }

  /** No epsilon key and a single destination per stored entry. */
  ghost predicate IsDeterministic(a: Automaton)
  {
    && EpsilonFree(a)
    && forall i :: 0 <= i < |a.transition| ==> |a.transition[i].dests| == 1
  }

  /** Every state has an entry for every letter. */
  ghost predicate IsComplete(a: Automaton)
  {
    forall q, c :: 0 <= q < a.n && c in a.alphabet ==> Has(a, q, c)
  }

  /** Under IsDeterministic, a present key has exactly one destination and no key is epsilon. */
  lemma DeterministicDest(a: Automaton, q: int, c: char)
    requires IsDeterministic(a)
    ensures Has(a, q, c) ==> |Dest(a, q, c)| == 1 && c != Epsilon
  {
    LookupPresent(a.transition, q, c);
  }

  /** The one-letter strings of an alphabet. */
  function Letters(alphabet: seq<char>): seq<string>
  {
    seq(|alphabet|, i requires 0 <= i < |alphabet| => [alphabet[i]])
  }

  lemma LettersMembers(alphabet: seq<char>, s: string)
    ensures s in Letters(alphabet) <==> |s| == 1 && s[0] in alphabet
  {
    if |s| == 1 && s[0] in alphabet {
      var i :| 0 <= i < |alphabet| && alphabet[i] == s[0];
      assert Letters(alphabet)[i] == s;
    }
  }

  /**
   * The elementary automaton for a one-symbol expression: "O" for the empty
   * language, "E" for the empty word, or a letter x for the word x.
   */
  function Elementary(expr: string): (r: Result<Automaton, Error>)
    ensures r.Success? <==> expr == [EmptyMarker] || expr == [Epsilon] || (|expr| == 1 && expr[0] in Alphabet)
    ensures r.Failure? ==> r.error == InvalidSymbol
    ensures r.Success? ==> WellFormed(r.value) && r.value.alphabet == Alphabet
    ensures expr == [EmptyMarker] ==>
      r.value.n == 1 && r.value.final == [] && r.value.transition == [] && r.value.name == ""
    ensures expr == [Epsilon] ==>
      r.value.n == 1 && r.value.final == [0] && r.value.transition == []
    ensures |expr| == 1 && expr[0] in Alphabet ==>
      && r.value.n == 2 && r.value.final == [1]
      && r.value.transition == [Entry(0, expr[0], [1])]
  {
    LettersMembers(Alphabet, expr);
    if expr !in Letters(Alphabet) + [[EmptyMarker], [Epsilon]] then
      Failure(InvalidSymbol)
    else
      var n := if expr == [EmptyMarker] || expr == [Epsilon] then 1 else 2;
      var final := if expr == [EmptyMarker] then [] else if expr == [Epsilon] then [0] else [1];
      var transition := if expr == [EmptyMarker] || expr == [Epsilon] then [] else [Entry(0, expr[0], [1])];
      var name := if expr == [EmptyMarker] then "" else "(" + expr + ")";
      Success(Automaton(Alphabet, n, final, transition, name))
  }

  /**
   * Appends dests to the entry of (q, c), creating the entry when absent.
   * `ajoute_transition` also rejects a destination argument that is not a list; that check
   * has no counterpart once the argument is typed.
   */
  function AddTransition(a: Automaton, q: int, c: char, dests: seq<int>): (r: Automaton)
    ensures r.alphabet == a.alphabet && r.n == a.n && r.final == a.final && r.name == a.name
    ensures Has(r, q, c) && Dest(r, q, c) == Dest(a, q, c) + dests
    ensures forall p, x :: p != q || x != c ==> Has(r, p, x) == Has(a, p, x) && Dest(r, p, x) == Dest(a, p, x)
  {
    if Has(a, q, c) then
      a.(transition := a.transition + [Entry(q, c, Dest(a, q, c) + dests)])
    else
      a.(transition := a.transition + [Entry(q, c, dests)])
  }

  /** AddTransition(_, f, c, dests) for each f of fs in turn. */
  function AddEach(a: Automaton, fs: seq<int>, c: char, dests: seq<int>): (r: Automaton)
    ensures r.alphabet == a.alphabet && r.n == a.n && r.final == a.final && r.name == a.name
    decreases |fs|
  {
    if fs == [] then a else AddEach(AddTransition(a, fs[0], c, dests), fs[1..], c, dests)
  }

  /**
   * After AddEach, the entry of (p, c) is the old one followed by one copy of
   * dests for each occurrence of p in fs; entries for other symbols are unchanged.
   */
  lemma {:induction false} AddEachDest(a: Automaton, fs: seq<int>, c: char, dests: seq<int>, p: int, x: char)
    ensures Dest(AddEach(a, fs, c, dests), p, x)
         == if x == c then Dest(a, p, x) + Repeat(dests, Count(fs, p)) else Dest(a, p, x)
    decreases |fs|
  {
    if fs == [] {
      assert Repeat(dests, Count(fs, p)) == [];
    } else {
      var a1 := AddTransition(a, fs[0], c, dests);
      var d := Dest(a, p, x);
      var rest := Repeat(dests, Count(fs[1..], p));
      var d1 := Dest(a1, p, x);
      assert AddEach(a, fs, c, dests) == AddEach(a1, fs[1..], c, dests);
      assert Dest(AddEach(a1, fs[1..], c, dests), p, x) == if x == c then d1 + rest else d1 by {
        AddEachDest(a1, fs[1..], c, dests, p, x);
      }
      assert d1 == if p == fs[0] && x == c then d + dests else d by {
        AddTransitionDest(a, fs[0], c, dests, p, x);
      }
      assert Repeat(dests, Count(fs, p)) == if fs[0] == p then dests + rest else rest by {
        RepeatCountStep(fs, p, dests);
      }
      ConcatAssoc(d, dests, rest);
    }
  }

  /** The entry of (p, x) after one AddTransition. */
  lemma AddTransitionDest(a: Automaton, q: int, c: char, dests: seq<int>, p: int, x: char)
    ensures Has(AddTransition(a, q, c, dests), p, x) <==> (p == q && x == c) || Has(a, p, x)
    ensures Dest(AddTransition(a, q, c, dests), p, x)
         == if p == q && x == c then Dest(a, p, x) + dests else Dest(a, p, x)
  {
  }

  /** The keys AddEach adds are exactly (f, c) for f in fs. */
  lemma {:induction false} AddEachKeys(a: Automaton, fs: seq<int>, c: char, dests: seq<int>, p: int, x: char)
    ensures Has(AddEach(a, fs, c, dests), p, x) <==> Has(a, p, x) || (x == c && p in fs)
    decreases |fs|
  {
    if fs != [] {
      var a1 := AddTransition(a, fs[0], c, dests);
      assert AddEach(a, fs, c, dests) == AddEach(a1, fs[1..], c, dests);
      AddEachKeys(a1, fs[1..], c, dests, p, x);
      assert p in fs <==> p == fs[0] || p in fs[1..];
    }
  }

  /** Every entry AddEach stores has a source in fs, symbol c, and dests appended to an older value. */
  lemma {:induction false} AddEachIdsWithin(a: Automaton, fs: seq<int>, c: char, dests: seq<int>, lo: int, hi: int)
    requires IdsWithin(a, lo, hi) && Within(fs, lo, hi) && Within(dests, lo, hi)
    ensures IdsWithin(AddEach(a, fs, c, dests), lo, hi)
    decreases |fs|
  {
    if fs != [] {
      var a1 := AddTransition(a, fs[0], c, dests);
      DestWithin(a, lo, hi, fs[0], c);
      WithinConcat(Dest(a, fs[0], c), dests, lo, hi);
      assert a1.transition == a.transition + [Entry(fs[0], c, Dest(a, fs[0], c) + dests)];
      assert IdsWithin(a1, lo, hi);
      AddEachIdsWithin(a1, fs[1..], c, dests, lo, hi);
    }
  }

  /** AddEach only stores entries labelled c. */
  lemma {:induction false} AddEachSymbols(a: Automaton, fs: seq<int>, c: char, dests: seq<int>, i: int)
    requires 0 <= i < |AddEach(a, fs, c, dests).transition|
    ensures i < |a.transition| ==> AddEach(a, fs, c, dests).transition[i] == a.transition[i]
    ensures i >= |a.transition| ==> AddEach(a, fs, c, dests).transition[i].symbol == c
    decreases |fs|
  {
    if fs != [] {
      var a1 := AddTransition(a, fs[0], c, dests);
      assert AddEach(a, fs, c, dests) == AddEach(a1, fs[1..], c, dests);
      AddEachSymbols(a1, fs[1..], c, dests, i);
    } else {
      assert AddEach(a, fs, c, dests) == a;
    }
  }
}
