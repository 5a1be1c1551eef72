/**
 * Subset-construction determinisation. The states of the result are the
 * subsets of the input's states discovered breadth first from {0}; subset
 * number k is processed once every earlier one has been, and for each letter c
 * its successor set (the union of the c-destinations of its members) becomes,
 * when non-empty, the single destination of (k, c), numbered by position,
 * appended to the list when it is new. A subset is final when it contains a
 * final state of the input.
 *
 * The work queue always holds exactly the discovered subsets not yet
 * processed, which is a suffix of the discovered list; the model keeps the
 * position k where that suffix starts instead of a separate queue.
 */
module Determinisation {
  import opened Wrappers
  import opened Seqs
  import opened Automata
  import opened Language

  /** The states reachable from some member of s by one c move. */
  function Post(a: Automaton, s: set<int>, c: char): (r: set<int>)
    ensures forall y :: y in r <==> exists q :: q in s && y in Dest(a, q, c)
  {
    set q, y | q in s && y in Dest(a, q, c) :: y
  }

  /** The position of the first occurrence of x in s. */
  function IndexOf(s: seq<set<int>>, x: set<int>): (r: nat)
    requires x in s
    ensures r < |s| && s[r] == x
    ensures forall j :: 0 <= j < r ==> s[j] != x
  {
    if s[0] == x then 0 else 1 + IndexOf(s[1..], x)
  }

  /** Every set a subset construction can produce: the start {0} and the states of a. */
  ghost function Universe(a: Automaton): set<int>
  {
    Range(a.n) + {0}
  }

  ghost function PowerSet(u: set<int>): set<set<int>>
  {
    set s: set<int> | s <= u
  }

  /** The discovered subsets are distinct subsets of the universe. */
  ghost predicate Discovered(a: Automaton, subsets: seq<set<int>>)
  {
    && Distinct(subsets)
    && forall i :: 0 <= i < |subsets| ==> subsets[i] <= Universe(a)
  }

  /** The successor set of subset k on c is a subset of the universe. */
  lemma PostInUniverse(a: Automaton, s: set<int>, c: char)
    requires IdsWithin(a, 0, a.n)
    ensures Post(a, s, c) <= Universe(a)
  {
    forall y | y in Post(a, s, c) ensures y in Universe(a) {
      var q :| q in s && y in Dest(a, q, c);
      DestWithin(a, 0, a.n, q, c);
    }
  }

  /** The discovered list after meeting t: t is appended when it is new. */
  function Discover(subsets: seq<set<int>>, t: set<int>): (r: seq<set<int>>)
    ensures t in r && |subsets| <= |r| && r[..|subsets|] == subsets
  {
    if t in subsets then subsets else subsets + [t]
  }

  /**
   * Processes the letters cs for subset number k: each non-empty successor set
   * is numbered (appended when new) and stored as the destination of (k, c).
   */
  function ExploreSymbols(a: Automaton, subsets: seq<set<int>>, k: nat, cs: seq<char>, trans: seq<Entry>)
    : (r: (seq<set<int>>, seq<Entry>))
    requires IdsWithin(a, 0, a.n) && k < |subsets| && Discovered(a, subsets)
    ensures |subsets| <= |r.0| && r.0[..|subsets|] == subsets && Discovered(a, r.0)
    decreases |cs|
  {
    if cs == [] then (subsets, trans)
    else
      var t := Post(a, subsets[k], cs[0]);
      if t == {} then ExploreSymbols(a, subsets, k, cs[1..], trans)
      else
        var subsets' := Discover(subsets, t);
        PostInUniverse(a, subsets[k], cs[0]);
        assert Discovered(a, subsets');
        var r := ExploreSymbols(a, subsets', k, cs[1..], trans + [Entry(k, cs[0], [IndexOf(subsets', t)])]);
        assert r.0[..|subsets|] == r.0[..|subsets'|][..|subsets|];
        r
  }

  /** Processes subsets k, k+1, ... until every discovered subset has been processed. */
  function Explore(a: Automaton, subsets: seq<set<int>>, k: nat, trans: seq<Entry>): (r: (seq<set<int>>, seq<Entry>))
    requires IdsWithin(a, 0, a.n) && k <= |subsets| && Discovered(a, subsets)
    ensures |subsets| <= |r.0| && r.0[..|subsets|] == subsets && Discovered(a, r.0)
    decreases PowerSet(Universe(a)) - ToSet(subsets), |subsets| - k
  {
    if k == |subsets| then (subsets, trans)
    else
      var step := ExploreSymbols(a, subsets, k, a.alphabet, trans);
      DiscoveredGrows(a, subsets, step.0);
      var r := Explore(a, step.0, k + 1, step.1);
      assert r.0[..|subsets|] == r.0[..|step.0|][..|subsets|];
      r
  }

  /** Appending distinct new subsets of the universe shrinks the undiscovered part of the power set. */
  lemma DiscoveredGrows(a: Automaton, subsets: seq<set<int>>, longer: seq<set<int>>)
    requires Discovered(a, subsets) && Discovered(a, longer)
    requires |subsets| <= |longer| && longer[..|subsets|] == subsets
    ensures PowerSet(Universe(a)) - ToSet(longer) <= PowerSet(Universe(a)) - ToSet(subsets)
    ensures |longer| > |subsets| ==> PowerSet(Universe(a)) - ToSet(longer) < PowerSet(Universe(a)) - ToSet(subsets)
  {
    assert forall i :: 0 <= i < |subsets| ==> subsets[i] == longer[i];
    if |longer| > |subsets| {
      var t := longer[|subsets|];
      assert t in PowerSet(Universe(a)) && t in ToSet(longer);
      assert t !in ToSet(subsets) by {
        forall i | 0 <= i < |subsets| ensures subsets[i] != t {
          assert longer[i] != longer[|subsets|];
        }
      }
      assert t in PowerSet(Universe(a)) - ToSet(subsets);
      assert t !in PowerSet(Universe(a)) - ToSet(longer);
    }
  }

  /** The subsets discovered from {0} and the entries stored along the way. */
  function SubsetConstruction(a: Automaton): (r: (seq<set<int>>, seq<Entry>))
    requires IdsWithin(a, 0, a.n)
    ensures |r.0| >= 1 && r.0[0] == {0} && Discovered(a, r.0)
  {
    var r := Explore(a, [{0}], 0, []);
    assert r.0[0] == r.0[..1][0];
    r
  }

  /** The deterministic automaton whose states are the discovered subsets. */
  function Determinise(a: Automaton): (r: Automaton)
    requires IdsWithin(a, 0, a.n)
    ensures r.alphabet == a.alphabet && r.name == a.name
    ensures r.n == |SubsetConstruction(a).0| >= 1
    ensures forall i :: i in r.final <==> 0 <= i < r.n && SubsetConstruction(a).0[i] * ToSet(a.final) != {}
    ensures StrictlyIncreasing(r.final)
  {
    var sc := SubsetConstruction(a);
    Automaton(a.alphabet, |sc.0|, MeetingIndices(sc.0, ToSet(a.final)), sc.1, a.name)
  }

  // What the stored table holds

  /** The entry the construction stores for (i, c) once subset i has been processed for c. */
  ghost function Expected(a: Automaton, subsets: seq<set<int>>, i: int, c: char): Option<seq<int>>
  {
    if 0 <= i < |subsets| && c in a.alphabet && Post(a, subsets[i], c) != {} && Post(a, subsets[i], c) in subsets
    then Some([IndexOf(subsets, Post(a, subsets[i], c))])
    else None
  }

  /** (i, c) has been processed: every subset before k, and subset k for the letters in done. */
  predicate Processed(k: int, done: set<char>, i: int, c: char)
  {
    i < k || (i == k && c in done)
  }

  /** The successors of processed pairs have been discovered. */
  ghost predicate TableClosed(a: Automaton, subsets: seq<set<int>>, k: int, done: set<char>)
  {
    forall i, c :: 0 <= i < |subsets| && Processed(k, done, i, c) && c in a.alphabet && Post(a, subsets[i], c) != {}
      ==> Post(a, subsets[i], c) in subsets
  }

  /** Exactly the processed pairs are stored, each with the number of its successor set. */
  ghost predicate TableLookup(a: Automaton, subsets: seq<set<int>>, k: int, done: set<char>, trans: seq<Entry>)
  {
    forall i, c :: 0 <= i ==> Lookup(trans, i, c) == if Processed(k, done, i, c) then Expected(a, subsets, i, c) else None
  }

  /** Every stored entry is a single in-range destination for a letter, from an in-range source. */
  ghost predicate TableEntries(a: Automaton, subsets: seq<set<int>>, trans: seq<Entry>)
  {
    forall j :: 0 <= j < |trans| ==>
      && 0 <= trans[j].source < |subsets| && trans[j].symbol in a.alphabet
      && |trans[j].dests| == 1 && 0 <= trans[j].dests[0] < |subsets|
  }

  /** The construction's invariant. */
  ghost predicate TableInv(a: Automaton, subsets: seq<set<int>>, k: int, done: set<char>, trans: seq<Entry>)
  {
    TableClosed(a, subsets, k, done) && TableLookup(a, subsets, k, done, trans) && TableEntries(a, subsets, trans)
  }

  lemma {:induction false} IndexOfPrefix(s: seq<set<int>>, u: seq<set<int>>, x: set<int>)
    requires x in s
    ensures IndexOf(s + u, x) == IndexOf(s, x)
    decreases |s|
  {
    if s[0] != x {
      assert (s + u)[1..] == s[1..] + u;
      IndexOfPrefix(s[1..], u, x);
    }
  }

  /** Appending subsets changes no entry whose successor set was already discovered. */
  lemma ExpectedStable(a: Automaton, subsets: seq<set<int>>, longer: seq<set<int>>, i: int, c: char)
    requires |subsets| <= |longer| && longer[..|subsets|] == subsets
    requires 0 <= i < |subsets|
    requires c in a.alphabet && Post(a, subsets[i], c) != {} ==> Post(a, subsets[i], c) in subsets
    ensures Expected(a, longer, i, c) == Expected(a, subsets, i, c)
  {
    assert longer == subsets + longer[|subsets|..];
    assert longer[i] == subsets[i];
    var t := Post(a, subsets[i], c);
    if c in a.alphabet && t != {} {
      IndexOfPrefix(subsets, longer[|subsets|..], t);
    }
  }

  /** Processing letter c of subset k with an empty successor set stores nothing and keeps the invariant. */
  lemma SkipStep(a: Automaton, subsets: seq<set<int>>, k: nat, c: char, trans: seq<Entry>, done: set<char>)
    requires k < |subsets| && Post(a, subsets[k], c) == {}
    requires TableInv(a, subsets, k, done, trans)
    ensures TableInv(a, subsets, k, done + {c}, trans)
  {
  }

  lemma StoreClosed(a: Automaton, subsets: seq<set<int>>, k: nat, c: char, done: set<char>)
    requires k < |subsets| && TableClosed(a, subsets, k, done)
    ensures TableClosed(a, Discover(subsets, Post(a, subsets[k], c)), k, done + {c})
  {
    var subsets' := Discover(subsets, Post(a, subsets[k], c));
    forall i, x | 0 <= i < |subsets'| && Processed(k, done + {c}, i, x) && x in a.alphabet && Post(a, subsets'[i], x) != {}
      ensures Post(a, subsets'[i], x) in subsets'
    {
      assert subsets'[i] == subsets[i];
      if !(i == k && x == c) {
        assert Post(a, subsets[i], x) in subsets;
      }
    }
  }

  /** Storing the entry of (k, c) sets that key and keeps the stored value of every other key. */
  lemma StoreLookupAt(a: Automaton, subsets: seq<set<int>>, k: nat, c: char, trans: seq<Entry>, done: set<char>,
                      i: int, x: char)
    requires k < |subsets| && Post(a, subsets[k], c) != {} && c in a.alphabet && 0 <= i
    requires TableClosed(a, subsets, k, done)
    requires Lookup(trans, i, x) == if Processed(k, done, i, x) then Expected(a, subsets, i, x) else None
    ensures var subsets' := Discover(subsets, Post(a, subsets[k], c));
            Lookup(trans + [Entry(k, c, [IndexOf(subsets', Post(a, subsets[k], c))])], i, x)
              == if Processed(k, done + {c}, i, x) then Expected(a, subsets', i, x) else None
  {
    var t := Post(a, subsets[k], c);
    var subsets' := Discover(subsets, t);
    var e := Entry(k, c, [IndexOf(subsets', t)]);
    LookupAppend(trans, [e], i, x);
    if i == k && x == c {
      assert subsets'[k] == subsets[k];
    } else if Processed(k, done, i, x) && i < |subsets| {
      ExpectedStable(a, subsets, subsets', i, x);
    } else if !Processed(k, done, i, x) {
      assert !Processed(k, done + {c}, i, x);
    }
  }

  lemma StoreLookup(a: Automaton, subsets: seq<set<int>>, k: nat, c: char, trans: seq<Entry>, done: set<char>)
    requires k < |subsets| && Post(a, subsets[k], c) != {} && c in a.alphabet
    requires TableClosed(a, subsets, k, done) && TableLookup(a, subsets, k, done, trans)
    ensures var subsets' := Discover(subsets, Post(a, subsets[k], c));
            TableLookup(a, subsets', k, done + {c},
                        trans + [Entry(k, c, [IndexOf(subsets', Post(a, subsets[k], c))])])
  {
    forall i, x | 0 <= i
      ensures var subsets' := Discover(subsets, Post(a, subsets[k], c));
              Lookup(trans + [Entry(k, c, [IndexOf(subsets', Post(a, subsets[k], c))])], i, x)
                == if Processed(k, done + {c}, i, x) then Expected(a, subsets', i, x) else None
    {
      StoreLookupAt(a, subsets, k, c, trans, done, i, x);
    }
  }

  lemma StoreEntries(a: Automaton, subsets: seq<set<int>>, k: nat, c: char, trans: seq<Entry>)
    requires k < |subsets| && c in a.alphabet && Post(a, subsets[k], c) != {}
    requires TableEntries(a, subsets, trans)
    ensures var subsets' := Discover(subsets, Post(a, subsets[k], c));
            TableEntries(a, subsets', trans + [Entry(k, c, [IndexOf(subsets', Post(a, subsets[k], c))])])
  {
  }

  lemma {:induction false} ExploreSymbolsInv(a: Automaton, subsets: seq<set<int>>, k: nat, cs: seq<char>,
                                             trans: seq<Entry>, done: set<char>)
    requires IdsWithin(a, 0, a.n) && k < |subsets| && Discovered(a, subsets)
    requires forall j :: 0 <= j < |cs| ==> cs[j] in a.alphabet
    requires TableInv(a, subsets, k, done, trans)
    ensures TableInv(a, ExploreSymbols(a, subsets, k, cs, trans).0, k, done + ToSet(cs),
                     ExploreSymbols(a, subsets, k, cs, trans).1)
    decreases |cs|
  {
    if cs == [] {
      assert done + ToSet(cs) == done;
    } else {
      var c := cs[0];
      var t := Post(a, subsets[k], c);
      assert done + ToSet(cs) == (done + {c}) + ToSet(cs[1..]);
      if t == {} {
        SkipStep(a, subsets, k, c, trans, done);
        ExploreSymbolsInv(a, subsets, k, cs[1..], trans, done + {c});
      } else {
        var subsets' := Discover(subsets, t);
        var trans' := trans + [Entry(k, c, [IndexOf(subsets', t)])];
        StoreClosed(a, subsets, k, c, done);
        StoreLookup(a, subsets, k, c, trans, done);
        StoreEntries(a, subsets, k, c, trans);
        PostInUniverse(a, subsets[k], c);
        assert ExploreSymbols(a, subsets, k, cs, trans) == ExploreSymbols(a, subsets', k, cs[1..], trans');
        ExploreSymbolsInv(a, subsets', k, cs[1..], trans', done + {c});
      }
    }
  }

  /** Once subset k is processed for every letter, the invariant holds with k + 1 and nothing pending. */
  lemma Advance(a: Automaton, subsets: seq<set<int>>, k: nat, trans: seq<Entry>)
    requires TableInv(a, subsets, k, ToSet(a.alphabet), trans)
    ensures TableInv(a, subsets, k + 1, {}, trans)
  {
    forall i, c | 0 <= i
      ensures Lookup(trans, i, c) == if Processed(k + 1, {}, i, c) then Expected(a, subsets, i, c) else None
    {
      assert Processed(k, ToSet(a.alphabet), i, c) ==> Processed(k + 1, {}, i, c);
    }
  }

  /** Processing subset k for every letter moves the invariant from k to k + 1. */
  lemma ExploreStep(a: Automaton, subsets: seq<set<int>>, k: nat, trans: seq<Entry>)
    requires IdsWithin(a, 0, a.n) && k < |subsets| && Discovered(a, subsets)
    requires TableInv(a, subsets, k, {}, trans)
    ensures TableInv(a, ExploreSymbols(a, subsets, k, a.alphabet, trans).0, k + 1, {},
                     ExploreSymbols(a, subsets, k, a.alphabet, trans).1)
  {
    var step := ExploreSymbols(a, subsets, k, a.alphabet, trans);
    ExploreSymbolsInv(a, subsets, k, a.alphabet, trans, {});
    assert {} + ToSet(a.alphabet) == ToSet(a.alphabet);
    Advance(a, step.0, k, step.1);
  }

  lemma {:induction false} ExploreInv(a: Automaton, subsets: seq<set<int>>, k: nat, trans: seq<Entry>)
    requires IdsWithin(a, 0, a.n) && k <= |subsets| && Discovered(a, subsets)
    requires TableInv(a, subsets, k, {}, trans)
    ensures var r := Explore(a, subsets, k, trans); TableInv(a, r.0, |r.0|, {}, r.1)
    decreases PowerSet(Universe(a)) - ToSet(subsets), |subsets| - k
  {
    if k < |subsets| {
      var step := ExploreSymbols(a, subsets, k, a.alphabet, trans);
      ExploreStep(a, subsets, k, trans);
      DiscoveredGrows(a, subsets, step.0);
      ExploreInv(a, step.0, k + 1, step.1);
    }
  }

  /** The construction's final table: every discovered subset processed for every letter. */
  lemma ConstructionTable(a: Automaton)
    requires IdsWithin(a, 0, a.n)
    ensures TableInv(a, SubsetConstruction(a).0, |SubsetConstruction(a).0|, {}, SubsetConstruction(a).1)
  {
    assert TableInv(a, [{0}], 0, {}, []);
    ExploreInv(a, [{0}], 0, []);
  }

  /**
   * Determinisation stores (i, c) exactly when i is a subset state, c a letter
   * and the successor set T of subset i on c is non-empty; its only
   * destination is then the number of T, which is itself a discovered subset.
   */
  lemma DeterminiseDest(a: Automaton, i: int, c: char)
    requires IdsWithin(a, 0, a.n)
    ensures Has(Determinise(a), i, c)
        <==> 0 <= i < Determinise(a).n && c in a.alphabet && Post(a, SubsetConstruction(a).0[i], c) != {}
    ensures Has(Determinise(a), i, c) ==>
              && |Dest(Determinise(a), i, c)| == 1
              && 0 <= Dest(Determinise(a), i, c)[0] < Determinise(a).n
              && SubsetConstruction(a).0[Dest(Determinise(a), i, c)[0]] == Post(a, SubsetConstruction(a).0[i], c)
  {
    ConstructionTable(a);
    var subsets := SubsetConstruction(a).0;
    if i < 0 {
      LookupPresent(SubsetConstruction(a).1, i, c);
    }
  }

  /** The entries of the construction's table have in-range sources and single in-range destinations. */
  lemma ConstructionEntries(a: Automaton)
    requires IdsWithin(a, 0, a.n)
    ensures TableEntries(a, SubsetConstruction(a).0, SubsetConstruction(a).1)
  {
    ConstructionTable(a);
  }

  /** The result is deterministic, keyed by letters only, with every id below n. */
  lemma DeterminiseShape(a: Automaton)
    requires IdsWithin(a, 0, a.n)
    ensures IdsWithin(Determinise(a), 0, Determinise(a).n)
    ensures forall j :: 0 <= j < |Determinise(a).transition| ==> Determinise(a).transition[j].symbol in a.alphabet
    ensures Epsilon !in a.alphabet ==> IsDeterministic(Determinise(a))
  {
    ConstructionEntries(a);
    var d := Determinise(a);
    var t := SubsetConstruction(a).1;
    assert d.transition == t;
    assert TableEntries(a, SubsetConstruction(a).0, t);
    forall j | 0 <= j < |d.final| ensures 0 <= d.final[j] < d.n {
      assert d.final[j] in d.final;
    }
    assert d.n == |SubsetConstruction(a).0|;
    forall j | 0 <= j < |t| ensures 0 <= t[j].source < d.n && Within(t[j].dests, 0, d.n) {
      var ds := t[j].dests;
      assert |ds| == 1 && 0 <= ds[0] < d.n;
      assert ds == [ds[0]];
    }
  }

  /** Determinising a well-formed automaton gives a well-formed deterministic one. */
  lemma DeterminiseWellFormed(a: Automaton)
    requires WellFormed(a)
    ensures WellFormed(Determinise(a)) && IsDeterministic(Determinise(a))
  {
    DeterminiseShape(a);
  }

  // The language is kept

  /** A non-empty successor set is read on a letter of the alphabet. */
  lemma PostLetter(a: Automaton, s: set<int>, c: char)
    requires WellFormed(a) && EpsilonFree(a)
    ensures Post(a, s, c) != {} ==> c in a.alphabet
  {
    if Post(a, s, c) != {} {
      NonEmptyMember(Post(a, s, c));
      var y :| y in Post(a, s, c);
      var q :| q in s && y in Dest(a, q, c);
      LookupPresent(a.transition, q, c);
    }
  }

  /** Subset state j is final exactly when some member of its subset accepts the empty word. */
  lemma DeterminiseEmpty(a: Automaton, j: int)
    requires WellFormed(a) && EpsilonFree(a) && 0 <= j < Determinise(a).n
    ensures j in Determinise(a).final <==> exists q :: q in SubsetConstruction(a).0[j] && AcceptsFrom(a, q, [])
  {
    var s := SubsetConstruction(a).0[j];
    if j in Determinise(a).final {
      NonEmptyMember(s * ToSet(a.final));
      var g :| g in s * ToSet(a.final);
      FinalAccepts(a, g);
    }
    if q :| q in s && AcceptsFrom(a, q, []) {
      AcceptsUnfold(a, q, []);
      assert q in s * ToSet(a.final);
    }
  }

  /** Some member of a subset accepts c.w exactly when some member of its successor set on c accepts w. */
  lemma DeterminiseStep(a: Automaton, s: set<int>, c: char, w: string)
    requires EpsilonFree(a)
    ensures (exists q :: q in s && AcceptsFrom(a, q, [c] + w))
        <==> exists q' :: q' in Post(a, s, c) && AcceptsFrom(a, q', w)
  {
    assert ([c] + w)[0] == c && ([c] + w)[1..] == w;
    if q :| q in s && AcceptsFrom(a, q, [c] + w) {
      AcceptsUnfold(a, q, [c] + w);
      var q' :| q' in Dest(a, q, c) && AcceptsFrom(a, q', w);
      assert q' in Post(a, s, c);
    }
    if q' :| q' in Post(a, s, c) && AcceptsFrom(a, q', w) {
      var q :| q in s && q' in Dest(a, q, c);
      AcceptsUnfold(a, q, [c] + w);
    }
  }

  /**
   * Reading w from subset state j ends in a final state exactly when some
   * member of subset j accepts w in the input automaton.
   */
  lemma {:induction false} DeterminiseRun(a: Automaton, j: int, w: string)
    requires WellFormed(a) && EpsilonFree(a) && 0 <= j < Determinise(a).n
    ensures Run(Determinise(a), j, w) in Determinise(a).final
        <==> exists q :: q in SubsetConstruction(a).0[j] && AcceptsFrom(a, q, w)
    decreases |w|
  {
    var d := Determinise(a);
    var s := SubsetConstruction(a).0[j];
    if w == [] {
      DeterminiseEmpty(a, j);
    } else {
      var c := w[0];
      assert w == [c] + w[1..];
      DeterminiseStep(a, s, c, w[1..]);
      DeterminiseDest(a, j, c);
      if Has(d, j, c) {
        DeterminiseRun(a, Dest(d, j, c)[0], w[1..]);
      } else {
        DeterminiseShape(a);
        RunStuck(d, w[1..]);
        PostLetter(a, s, c);
      }
    }
  }

  /** Determinisation keeps the language of an automaton without epsilon moves. */
  lemma DeterminisePreserves(a: Automaton, w: string)
    requires WellFormed(a) && EpsilonFree(a)
    ensures DfaAccepts(Determinise(a), w) <==> Accepts(a, w)
  {
    DeterminiseRun(a, 0, w);
    assert SubsetConstruction(a).0[0] == {0};
  }
}
