/**
 * Completion of a deterministic automaton. States 0 .. n-1 are scanned in
 * order and, for each, the letters of the alphabet in order; the first time a
 * pair (q, c) has no entry, a sink state numbered n is created (n grows by
 * one), and every missing pair is given the sink as its only destination. When
 * the sink exists it finally loops to itself on every letter. The sink is
 * never final, and an automaton with no missing pair is returned unchanged.
 */
module Completion {
  import opened Wrappers
  import opened Seqs
  import opened Automata
  import opened Language

  /**
   * Fills the missing letters cs of state q with the sink n. made says whether
   * the sink already exists; the result says whether it exists afterwards.
   */
  function FillRow(tr: seq<Entry>, q: int, cs: seq<char>, n: int, made: bool): (seq<Entry>, bool)
    decreases |cs|
  {
    if cs == [] then (tr, made)
    else if Lookup(tr, q, cs[0]).Some? then FillRow(tr, q, cs[1..], n, made)
    else FillRow(tr + [Entry(q, cs[0], [n])], q, cs[1..], n, true)
  }

  /** Fills the missing pairs of states q, q+1, ..., n-1. */
  function FillRows(tr: seq<Entry>, q: int, n: int, alphabet: seq<char>, made: bool): (seq<Entry>, bool)
    decreases n - q
  {
    if q >= n then (tr, made)
    else
      var row := FillRow(tr, q, alphabet, n, made);
      FillRows(row.0, q + 1, n, alphabet, row.1)
  }

  /** The sink's loops: one entry (s, c) -> [s] per letter c. */
  function SinkLoops(s: int, alphabet: seq<char>): (r: seq<Entry>)
    ensures |r| == |alphabet|
    ensures forall j :: 0 <= j < |r| ==> r[j] == Entry(s, alphabet[j], [s])
  {
    seq(|alphabet|, j requires 0 <= j < |alphabet| => Entry(s, alphabet[j], [s]))
  }

  /** Some state of a lacks an entry for some letter. */
  ghost predicate Missing(a: Automaton)
  {
    exists q, c :: 0 <= q < a.n && c in a.alphabet && !Has(a, q, c)
  }

  /** The complete automaton: missing pairs lead to a new sink state n. */
  function Complete(a: Automaton): (r: Automaton)
    ensures r.alphabet == a.alphabet && r.final == a.final && r.name == a.name
  {
    var filled := FillRows(a.transition, 0, a.n, a.alphabet, false);
    if filled.1 then Automaton(a.alphabet, a.n + 1, a.final, filled.0 + SinkLoops(a.n, a.alphabet), a.name)
    else a.(transition := filled.0)
  }

  // The filled table

  lemma {:induction false} FillRowLookup(tr: seq<Entry>, q: int, cs: seq<char>, n: int, made: bool, p: int, x: char)
    ensures Lookup(FillRow(tr, q, cs, n, made).0, p, x)
         == if p == q && x in cs && Lookup(tr, p, x).None? then Some([n]) else Lookup(tr, p, x)
    decreases |cs|
  {
    if cs != [] {
      var c := cs[0];
      assert x in cs <==> x == c || x in cs[1..];
      if Lookup(tr, q, c).Some? {
        FillRowLookup(tr, q, cs[1..], n, made, p, x);
      } else {
        var tr' := tr + [Entry(q, c, [n])];
        FillRowLookup(tr', q, cs[1..], n, true, p, x);
        LookupAppend(tr, [Entry(q, c, [n])], p, x);
      }
    }
  }

  lemma {:induction false} FillRowMade(tr: seq<Entry>, q: int, cs: seq<char>, n: int, made: bool)
    ensures FillRow(tr, q, cs, n, made).1 <==> made || exists x :: x in cs && Lookup(tr, q, x).None?
    ensures !FillRow(tr, q, cs, n, made).1 ==> FillRow(tr, q, cs, n, made).0 == tr
    decreases |cs|
  {
    if cs != [] {
      var c := cs[0];
      assert forall x :: x in cs <==> x == c || x in cs[1..];
      if Lookup(tr, q, c).Some? {
        FillRowMade(tr, q, cs[1..], n, made);
      } else {
        var tr' := tr + [Entry(q, c, [n])];
        FillRowMade(tr', q, cs[1..], n, true);
        assert c in cs && Lookup(tr, q, c).None?;
      }
    }
  }

  lemma {:induction false} FillRowAppends(tr: seq<Entry>, q: int, cs: seq<char>, n: int, made: bool)
    ensures |tr| <= |FillRow(tr, q, cs, n, made).0| && FillRow(tr, q, cs, n, made).0[..|tr|] == tr
    ensures forall j :: |tr| <= j < |FillRow(tr, q, cs, n, made).0| ==>
              FillRow(tr, q, cs, n, made).0[j].source == q && FillRow(tr, q, cs, n, made).0[j].symbol in cs
              && FillRow(tr, q, cs, n, made).0[j].dests == [n]
    decreases |cs|
  {
    if cs != [] {
      var c := cs[0];
      assert forall x :: x in cs[1..] ==> x in cs;
      if Lookup(tr, q, c).Some? {
        FillRowAppends(tr, q, cs[1..], n, made);
      } else {
        var tr' := tr + [Entry(q, c, [n])];
        FillRowAppends(tr', q, cs[1..], n, true);
        var r := FillRow(tr, q, cs, n, made).0;
        assert r[..|tr'|] == tr';
        assert r[..|tr|] == tr'[..|tr|];
      }
    }
  }

  lemma {:induction false} FillRowsLookup(tr: seq<Entry>, q: int, n: int, alphabet: seq<char>, made: bool, p: int, x: char)
    ensures Lookup(FillRows(tr, q, n, alphabet, made).0, p, x)
         == if q <= p < n && x in alphabet && Lookup(tr, p, x).None? then Some([n]) else Lookup(tr, p, x)
    decreases n - q
  {
    if q < n {
      var row := FillRow(tr, q, alphabet, n, made);
      FillRowsLookup(row.0, q + 1, n, alphabet, row.1, p, x);
      FillRowLookup(tr, q, alphabet, n, made, p, x);
    }
  }

  lemma {:induction false} FillRowsMade(tr: seq<Entry>, q: int, n: int, alphabet: seq<char>, made: bool)
    ensures FillRows(tr, q, n, alphabet, made).1
        <==> made || exists p, x :: q <= p < n && x in alphabet && Lookup(tr, p, x).None?
    ensures !FillRows(tr, q, n, alphabet, made).1 ==> FillRows(tr, q, n, alphabet, made).0 == tr
    decreases n - q
  {
    if q < n {
      var row := FillRow(tr, q, alphabet, n, made);
      FillRowMade(tr, q, alphabet, n, made);
      FillRowsMade(row.0, q + 1, n, alphabet, row.1);
      if row.1 == made && !made {
        // the row added nothing, so later rows see the same table
        assert row.0 == tr;
      }
      forall p, x | q + 1 <= p < n && x in alphabet
        ensures Lookup(row.0, p, x) == Lookup(tr, p, x)
      {
        FillRowLookup(tr, q, alphabet, n, made, p, x);
      }
    }
  }

  lemma {:induction false} FillRowsAppends(tr: seq<Entry>, q: int, n: int, alphabet: seq<char>, made: bool)
    requires 0 <= q
    ensures |tr| <= |FillRows(tr, q, n, alphabet, made).0| && FillRows(tr, q, n, alphabet, made).0[..|tr|] == tr
    ensures forall j :: |tr| <= j < |FillRows(tr, q, n, alphabet, made).0| ==>
              0 <= FillRows(tr, q, n, alphabet, made).0[j].source < n
              && FillRows(tr, q, n, alphabet, made).0[j].symbol in alphabet
              && FillRows(tr, q, n, alphabet, made).0[j].dests == [n]
    decreases n - q
  {
    if q < n {
      var row := FillRow(tr, q, alphabet, n, made);
      FillRowAppends(tr, q, alphabet, n, made);
      FillRowsAppends(row.0, q + 1, n, alphabet, row.1);
      var r := FillRows(tr, q, n, alphabet, made).0;
      assert r[..|tr|] == r[..|row.0|][..|tr|];
      forall j | |tr| <= j < |r|
        ensures 0 <= r[j].source < n && r[j].symbol in alphabet && r[j].dests == [n]
      {
        if j < |row.0| {
          assert r[j] == r[..|row.0|][j] == row.0[j];
        }
      }
    }
  }

  // The completed automaton

  /**
   * After completion (p, x) has an entry exactly when it had one before or p is
   * a state (the sink included) and x a letter; old entries keep their
   * destinations, and every new one leads to the sink, numbered by the old n.
   */
  lemma CompleteDest(a: Automaton, p: int, x: char)
    requires IdsWithin(a, 0, a.n)
    ensures Has(Complete(a), p, x) <==> Has(a, p, x) || (0 <= p < Complete(a).n && x in a.alphabet)
    ensures Has(a, p, x) ==> Dest(Complete(a), p, x) == Dest(a, p, x)
    ensures !Has(a, p, x) && Has(Complete(a), p, x) ==> Dest(Complete(a), p, x) == [a.n]
  {
    var filled := FillRows(a.transition, 0, a.n, a.alphabet, false);
    FillRowsLookup(a.transition, 0, a.n, a.alphabet, false, p, x);
    FillRowsMade(a.transition, 0, a.n, a.alphabet, false);
    if filled.1 {
      LookupAppend(filled.0, SinkLoops(a.n, a.alphabet), p, x);
      SinkLoopsLookup(a.n, a.alphabet, p, x);
      DestWithin(a, 0, a.n, p, x);
    }
  }

  /** The sink's loops hold exactly the keys (s, c) for the letters c, each leading to s. */
  lemma SinkLoopsLookup(s: int, alphabet: seq<char>, p: int, x: char)
    ensures Lookup(SinkLoops(s, alphabet), p, x) == if p == s && x in alphabet then Some([s]) else None
  {
    var loops := SinkLoops(s, alphabet);
    LookupPresent(loops, p, x);
    if p == s && x in alphabet {
      var j :| 0 <= j < |alphabet| && alphabet[j] == x;
      assert loops[j].source == p && loops[j].symbol == x;
    }
  }

  /** A sink is added exactly when some pair was missing. */
  lemma CompleteSize(a: Automaton)
    ensures Complete(a).n == if Missing(a) then a.n + 1 else a.n
    ensures !Missing(a) ==> Complete(a) == a
  {
    var filled := FillRows(a.transition, 0, a.n, a.alphabet, false);
    FillRowsMade(a.transition, 0, a.n, a.alphabet, false);
    if filled.1 {
      var p, x :| 0 <= p < a.n && x in a.alphabet && Lookup(a.transition, p, x).None?;
      assert !Has(a, p, x);
      assert Missing(a);
    } else {
      forall p, x | 0 <= p < a.n && x in a.alphabet ensures Has(a, p, x) {
        assert Lookup(a.transition, p, x).Some?;
      }
      assert !Missing(a);
    }
  }

  /** The completed automaton has an entry for every state and letter. */
  lemma CompleteIsComplete(a: Automaton)
    requires IdsWithin(a, 0, a.n)
    ensures IsComplete(Complete(a))
  {
    forall q, c | 0 <= q < Complete(a).n && c in Complete(a).alphabet
      ensures Has(Complete(a), q, c)
    {
      CompleteDest(a, q, c);
    }
  }

  /** The entries of the completed automaton: the old ones, the filled ones, then the sink's loops. */
  lemma CompleteEntries(a: Automaton)
    ensures |a.transition| <= |Complete(a).transition|
    ensures Complete(a).transition[..|a.transition|] == a.transition
    ensures forall j :: |a.transition| <= j < |Complete(a).transition| ==>
              0 <= Complete(a).transition[j].source < Complete(a).n
              && Complete(a).transition[j].symbol in a.alphabet
              && Complete(a).transition[j].dests == [a.n]
    ensures |Complete(a).transition| > |a.transition| ==> Complete(a).n == a.n + 1
  {
    var filled := FillRows(a.transition, 0, a.n, a.alphabet, false);
    FillRowsAppends(a.transition, 0, a.n, a.alphabet, false);
    var r := Complete(a);
    if filled.1 {
      var loops := SinkLoops(a.n, a.alphabet);
      assert r.transition == filled.0 + loops;
      assert r.transition[..|a.transition|] == filled.0[..|a.transition|];
      forall j | |a.transition| <= j < |r.transition|
        ensures 0 <= r.transition[j].source < r.n && r.transition[j].symbol in a.alphabet
                && r.transition[j].dests == [a.n]
      {
        if j >= |filled.0| {
          assert r.transition[j] == loops[j - |filled.0|];
        } else {
          assert r.transition[j] == filled.0[j];
        }
      }
    } else {
      FillRowsMade(a.transition, 0, a.n, a.alphabet, false);
    }
  }

  /** Completion keeps an automaton deterministic and well formed. */
  lemma CompleteWellFormed(a: Automaton)
    requires WellFormed(a) && IsDeterministic(a)
    ensures WellFormed(Complete(a)) && IsDeterministic(Complete(a)) && IsComplete(Complete(a))
  {
    CompleteEntries(a);
    CompleteIsComplete(a);
    var r := Complete(a);
    forall j | 0 <= j < |r.transition|
      ensures 0 <= r.transition[j].source < r.n && Within(r.transition[j].dests, 0, r.n)
              && r.transition[j].symbol in a.alphabet && |r.transition[j].dests| == 1
    {
      if j < |a.transition| {
        assert r.transition[j] == r.transition[..|a.transition|][j] == a.transition[j];
      } else {
        assert r.transition[j].dests == [a.n] && r.n == a.n + 1;
      }
    }
    assert Within(r.final, 0, r.n);
  }

  // The language is kept

  /**
   * A state of the input and a state of the completed automaton that agree:
   * the same state, or the input's dead end -1 against -1 or the sink.
   */
  ghost predicate Agree(a: Automaton, q: int, q': int)
  {
    (0 <= q < a.n && q' == q) || (q == -1 && (q' == -1 || q' == a.n))
  }

  lemma NextAgree(a: Automaton, q: int, q': int, c: char)
    requires WellFormed(a) && IsDeterministic(a)
    requires Agree(a, q, q')
    ensures Agree(a, Next(a, q, c), Next(Complete(a), q', c))
  {
    CompleteDest(a, q', c);
    DestWithin(a, 0, a.n, q, c);
    DestWithin(a, 0, a.n, q', c);
    DeterministicDest(a, q, c);
    CompleteWellFormed(a);
    DeterministicDest(Complete(a), q', c);
    if Has(Complete(a), q', c) && !Has(a, q', c) {
      assert Dest(Complete(a), q', c) == [a.n];
    }
  }

  lemma {:induction false} RunAgree(a: Automaton, q: int, q': int, w: string)
    requires WellFormed(a) && IsDeterministic(a)
    requires Agree(a, q, q')
    ensures Agree(a, Run(a, q, w), Run(Complete(a), q', w))
    decreases |w|
  {
    if w != [] {
      NextAgree(a, q, q', w[0]);
      RunAgree(a, Next(a, q, w[0]), Next(Complete(a), q', w[0]), w[1..]);
    }
  }

  /** A deterministic automaton and its completion accept the same words. */
  lemma CompletePreserves(a: Automaton, w: string)
    requires WellFormed(a) && IsDeterministic(a)
    ensures DfaAccepts(Complete(a), w) <==> DfaAccepts(a, w)
  {
    RunAgree(a, 0, 0, w);
    var q := Run(a, 0, w);
    if q == -1 || Run(Complete(a), 0, w) != q {
      assert q !in a.final && Run(Complete(a), 0, w) !in a.final;
    }
  }
}
