/**
 * The languages the constructors denote. The elementary automata accept no
 * word, the empty word, or one letter; union accepts the words of either
 * operand, concatenation the words split into a word of the first and a word
 * of the second, and star the words split into any number of words of its
 * operand.
 *
 * The combinator proofs move runs between an operand and the combined
 * automaton: an operand's run, shifted by the operand's offset, is a run of
 * the combination, and a run of the combination that starts in the part an
 * operand occupies and never leaves it is an operand's run shifted back.
 */
module Regular {
  import opened Wrappers
  import opened Seqs
  import opened Automata
  import opened Language
  import opened Combinators

  // Moving runs between automata

  /** steps with every target increased by k. */
  function ShiftSteps(steps: seq<Step>, k: int): (r: seq<Step>)
    ensures |r| == |steps|
    ensures forall i :: 0 <= i < |steps| ==> r[i].symbol == steps[i].symbol && r[i].target == steps[i].target + k
  {
    seq(|steps|, i requires 0 <= i < |steps| => Step(steps[i].symbol, steps[i].target + k))
  }

  /** Renumbering the states of a run does not change its word. */
  lemma {:induction false} ShiftStepsWord(steps: seq<Step>, k: int)
    ensures Word(ShiftSteps(steps, k)) == Word(steps)
    decreases |steps|
  {
    if steps != [] {
      assert ShiftSteps(steps, k)[1..] == ShiftSteps(steps[1..], k);
      ShiftStepsWord(steps[1..], k);
    }
  }

  /** Every move of a, shifted by k, is a move of b. */
  ghost predicate Embeds(a: Automaton, b: Automaton, k: int)
  {
    forall p, x, q :: 0 <= p < a.n && q in Dest(a, p, x) ==> q + k in Dest(b, p + k, x)
  }

  /** The moves of b from the states k .. k + a.n - 1 are exactly the moves of a shifted by k. */
  ghost predicate Mirrors(a: Automaton, b: Automaton, k: int)
  {
    forall p, x :: 0 <= p < a.n ==> Dest(b, p + k, x) == ShiftSeq(Dest(a, p, x), k)
  }

  lemma MirrorsEmbeds(a: Automaton, b: Automaton, k: int)
    requires Mirrors(a, b, k)
    ensures Embeds(a, b, k)
  {
    forall p, x, q | 0 <= p < a.n && q in Dest(a, p, x) ensures q + k in Dest(b, p + k, x) {
      ShiftMember(Dest(a, p, x), k, q + k);
    }
  }

  /** A run of a from a state of a, shifted by k, is a run of b. */
  lemma {:induction false} EmbedPath(a: Automaton, b: Automaton, k: int, p: int, steps: seq<Step>, q: int)
    requires IdsWithin(a, 0, a.n) && Embeds(a, b, k) && 0 <= p < a.n && IsPath(a, p, steps, q)
    ensures IsPath(b, p + k, ShiftSteps(steps, k), q + k)
    decreases |steps|
  {
    if steps != [] {
      var x, t := steps[0].symbol, steps[0].target;
      DestWithin(a, 0, a.n, p, x);
      assert t in Dest(a, p, x);
      EmbedPath(a, b, k, t, steps[1..], q);
      assert ShiftSteps(steps, k)[1..] == ShiftSteps(steps[1..], k);
    }
  }

  /** A run of b from state p + k, where b mirrors a at offset k, is a run of a shifted by k. */
  lemma {:induction false} ProjectPath(a: Automaton, b: Automaton, k: int, p: int, steps: seq<Step>, q: int)
    requires IdsWithin(a, 0, a.n) && Mirrors(a, b, k) && 0 <= p < a.n && IsPath(b, p + k, steps, q)
    ensures IsPath(a, p, ShiftSteps(steps, -k), q - k) && 0 <= q - k < a.n
    decreases |steps|
  {
    if steps != [] {
      var x, t := steps[0].symbol, steps[0].target;
      assert Dest(b, p + k, x) == ShiftSeq(Dest(a, p, x), k);
      ShiftMember(Dest(a, p, x), k, t);
      DestWithin(a, 0, a.n, p, x);
      ProjectPath(a, b, k, t - k, steps[1..], q);
      assert ShiftSteps(steps, -k)[1..] == ShiftSteps(steps[1..], -k);
    }
  }

  /** Every final state of a, shifted by k, is final in b. */
  ghost predicate FinalsCarry(a: Automaton, b: Automaton, k: int)
  {
    forall f :: f in a.final ==> f + k in b.final
  }

  /** A final state of b among k .. k + a.n - 1 is a final state of a shifted by k. */
  ghost predicate FinalsReflect(a: Automaton, b: Automaton, k: int)
  {
    forall q :: q in b.final && k <= q < k + a.n ==> q - k in a.final
  }

  /** What a accepts from p, b accepts from p + k when it contains a at offset k. */
  lemma EmbedAccepts(a: Automaton, b: Automaton, k: int, p: int, w: string)
    requires IdsWithin(a, 0, a.n) && Embeds(a, b, k) && FinalsCarry(a, b, k)
    requires 0 <= p < a.n && AcceptsFrom(a, p, w)
    ensures AcceptsFrom(b, p + k, w)
  {
    var steps: seq<Step>, q :| IsPath(a, p, steps, q) && q in a.final && Word(steps) == w;
    EmbedPath(a, b, k, p, steps, q);
    ShiftStepsWord(steps, k);
    assert IsPath(b, p + k, ShiftSteps(steps, k), q + k) && q + k in b.final;
  }

  /** What b accepts from p + k, where b mirrors a at offset k, a accepts from p. */
  lemma ProjectAccepts(a: Automaton, b: Automaton, k: int, p: int, w: string)
    requires IdsWithin(a, 0, a.n) && Mirrors(a, b, k) && FinalsReflect(a, b, k)
    requires 0 <= p < a.n && AcceptsFrom(b, p + k, w)
    ensures AcceptsFrom(a, p, w)
  {
    var steps: seq<Step>, q :| IsPath(b, p + k, steps, q) && q in b.final && Word(steps) == w;
    ProjectPath(a, b, k, p, steps, q);
    ShiftStepsWord(steps, -k);
    assert IsPath(a, p, ShiftSteps(steps, -k), q - k) && q - k in a.final;
  }

  /** Splitting pre + w after pre and k more letters. */
  lemma ConsSplit(pre: string, w: string, k: nat)
    requires k <= |w|
    ensures (pre + w)[..|pre| + k] == pre + w[..k] && (pre + w)[|pre| + k..] == w[k..]
  {
  }

  // The elementary automata

  /** automate("O") accepts no word. */
  lemma EmptyLanguageAccepts(w: string)
    ensures !Accepts(Elementary([EmptyMarker]).value, w)
  {
  }

  /** automate("E") accepts the empty word and nothing else. */
  lemma EpsilonAccepts(w: string)
    ensures Accepts(Elementary([Epsilon]).value, w) <==> w == []
  {
    var a := Elementary([Epsilon]).value;
    AcceptsUnfold(a, 0, w);
  }

  /** automate(x), for a letter x, accepts the word x and nothing else. */
  lemma LetterAccepts(x: char, w: string)
    requires x in Alphabet
    ensures Accepts(Elementary([x]).value, w) <==> w == [x]
  {
    var a := Elementary([x]).value;
    AcceptsUnfold(a, 0, w);
    assert a.transition == [Entry(0, x, [1])];
    forall c ensures Dest(a, 0, c) == (if c == x then [1] else []) && Dest(a, 1, c) == [] {
      var t := a.transition;
      assert t[..0] == [];
      assert Lookup(t[..0], 0, c) == None && Lookup(t[..0], 1, c) == None;
      assert Lookup(t, 1, c) == None;
    }
    if w != [] {
      AcceptsUnfold(a, 1, w[1..]);
      if w == [x] {
        FinalAccepts(a, 1);
      }
    }
  }

  // Union

  /** The union holds a1 one place up and a2 past a1's states, moves unchanged. */
  lemma UnionMirrors(a1: Automaton, a2: Automaton)
    requires WellFormed(a1) && WellFormed(a2)
    ensures Mirrors(a1, Union(a1, a2), 1) && Mirrors(a2, Union(a1, a2), 1 + a1.n)
  {
    forall p, x | 0 <= p < a1.n ensures Dest(Union(a1, a2), p + 1, x) == ShiftSeq(Dest(a1, p, x), 1) {
      UnionDest(a1, a2, p + 1, x);
    }
    forall p, x | 0 <= p < a2.n
      ensures Dest(Union(a1, a2), p + (1 + a1.n), x) == ShiftSeq(Dest(a2, p, x), 1 + a1.n)
    {
      UnionDest(a1, a2, p + (1 + a1.n), x);
    }
  }

  /** The union's final states are exactly the operands' final states, moved with them. */
  lemma UnionFinals(a1: Automaton, a2: Automaton)
    requires WellFormed(a1) && WellFormed(a2)
    ensures FinalsCarry(a1, Union(a1, a2), 1) && FinalsCarry(a2, Union(a1, a2), 1 + a1.n)
    ensures FinalsReflect(a1, Union(a1, a2), 1) && FinalsReflect(a2, Union(a1, a2), 1 + a1.n)
    ensures 0 !in Union(a1, a2).final
  {
    JoinedFinals(a1, a2, Union(a1, a2));
  }

  /** The final states of u are a1's one place up followed by a2's past a1's states. */
  lemma JoinedFinals(a1: Automaton, a2: Automaton, u: Automaton)
    requires WellFormed(a1) && WellFormed(a2)
    requires u.final == ShiftSeq(a1.final, 1) + ShiftSeq(a2.final, 1 + a1.n)
    ensures FinalsCarry(a1, u, 1) && FinalsCarry(a2, u, 1 + a1.n)
    ensures FinalsReflect(a1, u, 1) && FinalsReflect(a2, u, 1 + a1.n)
    ensures 0 !in u.final
  {
    forall q ensures q in u.final <==> q - 1 in a1.final || q - 1 - a1.n in a2.final {
      ShiftMember(a1.final, 1, q);
      ShiftMember(a2.final, 1 + a1.n, q);
    }
    forall f | f in a1.final ensures 0 <= f < a1.n {
      WithinMember(a1.final, 0, a1.n, f);
    }
    forall f | f in a2.final ensures 0 <= f < a2.n {
      WithinMember(a2.final, 0, a2.n, f);
    }
  }

  /** The union's start has no move but the two epsilon moves into the operands. */
  lemma UnionFromStart(a1: Automaton, a2: Automaton, x: char, t: int)
    requires WellFormed(a1) && WellFormed(a2) && t in Dest(Union(a1, a2), 0, x)
    ensures x == Epsilon && (t == 1 || t == 1 + a1.n)
  {
    UnionDest(a1, a2, 0, x);
    DestWithin(a1, 0, a1.n, -1, x);
  }

  /**
   * The moves of union that runs into it use: a1's moves one place up, a2's
   * past a1's states, the operands' final states kept, and epsilon moves from
   * the start into both operands.
   */
  ghost predicate UnionEntries(a1: Automaton, a2: Automaton, u: Automaton)
  {
    && Embeds(a1, u, 1) && Embeds(a2, u, 1 + a1.n)
    && FinalsCarry(a1, u, 1) && FinalsCarry(a2, u, 1 + a1.n)
    && Dest(u, 0, Epsilon) == [1, 1 + a1.n]
  }

  /**
   * The moves of union that runs out of it are limited to: the start moves
   * only on epsilon into an operand, the operands' parts move exactly as the
   * operands do, and the final states are the operands' alone.
   */
  ghost predicate UnionExits(a1: Automaton, a2: Automaton, u: Automaton)
  {
    && Mirrors(a1, u, 1) && Mirrors(a2, u, 1 + a1.n)
    && FinalsReflect(a1, u, 1) && FinalsReflect(a2, u, 1 + a1.n)
    && 0 !in u.final
    && forall x, t :: t in Dest(u, 0, x) ==> x == Epsilon && (t == 1 || t == 1 + a1.n)
  }

  lemma UnionHasEntries(a1: Automaton, a2: Automaton)
    requires WellFormed(a1) && WellFormed(a2)
    ensures UnionEntries(a1, a2, Union(a1, a2))
  {
    UnionMirrors(a1, a2);
    MirrorsEmbeds(a1, Union(a1, a2), 1);
    MirrorsEmbeds(a2, Union(a1, a2), 1 + a1.n);
    UnionFinals(a1, a2);
    UnionStart(a1, a2);
  }

  lemma UnionHasExits(a1: Automaton, a2: Automaton)
    requires WellFormed(a1) && WellFormed(a2)
    ensures UnionExits(a1, a2, Union(a1, a2))
  {
    UnionMirrors(a1, a2);
    UnionFinals(a1, a2);
    forall x, t | t in Dest(Union(a1, a2), 0, x) ensures x == Epsilon && (t == 1 || t == 1 + a1.n) {
      UnionFromStart(a1, a2, x, t);
    }
  }

  /** A word accepted by u, which has union's exits, is a word of one operand. */
  lemma UnionSound(a1: Automaton, a2: Automaton, u: Automaton, w: string)
    requires WellFormed(a1) && WellFormed(a2) && UnionExits(a1, a2, u) && Accepts(u, w)
    ensures Accepts(a1, w) || Accepts(a2, w)
  {
    var steps: seq<Step>, q :| IsPath(u, 0, steps, q) && q in u.final && Word(steps) == w;
    assert steps != [];
    var t := steps[0].target;
    assert AcceptsFrom(u, t, w) by {
      assert IsPath(u, t, steps[1..], q) && Word(steps) == Word(steps[1..]);
    }
    if t == 1 {
      ProjectAccepts(a1, u, 1, 0, w);
    } else {
      ProjectAccepts(a2, u, 1 + a1.n, 0, w);
    }
  }

  /** A word of either operand is accepted by u, which has union's entries. */
  lemma UnionComplete(a1: Automaton, a2: Automaton, u: Automaton, w: string)
    requires WellFormed(a1) && WellFormed(a2) && UnionEntries(a1, a2, u) && (Accepts(a1, w) || Accepts(a2, w))
    ensures Accepts(u, w)
  {
    if Accepts(a1, w) {
      EmbedAccepts(a1, u, 1, 0, w);
      AcceptsCons(u, 0, Epsilon, 1, w);
    } else {
      EmbedAccepts(a2, u, 1 + a1.n, 0, w);
      AcceptsCons(u, 0, Epsilon, 1 + a1.n, w);
    }
  }

  /** union accepts the words either operand accepts, and no other. */
  lemma UnionLanguage(a1: Automaton, a2: Automaton, w: string)
    requires WellFormed(a1) && WellFormed(a2)
    ensures Accepts(Union(a1, a2), w) <==> Accepts(a1, w) || Accepts(a2, w)
  {
    var u := Union(a1, a2);
    if Accepts(u, w) {
      UnionHasExits(a1, a2);
      UnionSound(a1, a2, u, w);
    }
    if Accepts(a1, w) || Accepts(a2, w) {
      UnionHasEntries(a1, a2);
      UnionComplete(a1, a2, u, w);
    }
  }

  // Concatenation

  /** b's final states are a's shifted by k, so they all lie in k .. k + a.n - 1. */
  lemma ShiftedFinals(a: Automaton, b: Automaton, k: int)
    requires Within(a.final, 0, a.n) && b.final == ShiftSeq(a.final, k)
    ensures FinalsCarry(a, b, k) && FinalsReflect(a, b, k)
    ensures forall q :: q in b.final ==> k <= q < k + a.n
  {
    forall q ensures q in b.final <==> q - k in a.final {
      ShiftMember(a.final, k, q);
    }
    forall f | f in a.final ensures 0 <= f < a.n {
      WithinMember(a.final, 0, a.n, f);
    }
  }

  /**
   * The moves of concatenation that runs into it use: a1's moves in place, an
   * epsilon move from each final state of a1 to a2's start a1.n, and a2's
   * moves and final states past a1's states.
   */
  ghost predicate ConcatEntries(a1: Automaton, a2: Automaton, c: Automaton)
  {
    && Embeds(a1, c, 0) && Embeds(a2, c, a1.n) && FinalsCarry(a2, c, a1.n)
    && forall f :: f in a1.final ==> a1.n in Dest(c, f, Epsilon)
  }

  /**
   * The moves of concatenation that runs out of it are limited to: a1's
   * states move as in a1 or, when final in a1, on epsilon to a1.n; a2's part
   * moves exactly as a2 does; the final states are a2's alone.
   */
  ghost predicate ConcatExits(a1: Automaton, a2: Automaton, c: Automaton)
  {
    && Mirrors(a2, c, a1.n) && FinalsReflect(a2, c, a1.n)
    && (forall q :: q in c.final ==> a1.n <= q)
    && forall p, x, t :: 0 <= p < a1.n && t in Dest(c, p, x) ==>
         t in Dest(a1, p, x) || (x == Epsilon && t == a1.n && p in a1.final)
  }

  /** The moves out of a1's states in a1 . a2: a1's own, and the epsilon moves from its final states. */
  lemma ConcatBridges(a1: Automaton, a2: Automaton)
    requires WellFormed(a1) && WellFormed(a2)
    ensures Embeds(a1, Concat(a1, a2), 0)
    ensures forall f :: f in a1.final ==> a1.n in Dest(Concat(a1, a2), f, Epsilon)
    ensures forall p, x, t :: 0 <= p < a1.n && t in Dest(Concat(a1, a2), p, x) ==>
              t in Dest(a1, p, x) || (x == Epsilon && t == a1.n && p in a1.final)
  {
    var c := Concat(a1, a2);
    forall p, x, q | 0 <= p < a1.n && q in Dest(a1, p, x) ensures q + 0 in Dest(c, p + 0, x) {
      ConcatDest(a1, a2, p, x);
    }
    forall f | f in a1.final ensures a1.n in Dest(c, f, Epsilon) {
      WithinMember(a1.final, 0, a1.n, f);
      ConcatDest(a1, a2, f, Epsilon);
      CountMember(a1.final, f);
      RepeatMember([a1.n], Count(a1.final, f), a1.n);
    }
    forall p, x, t | 0 <= p < a1.n && t in Dest(c, p, x)
      ensures t in Dest(a1, p, x) || (x == Epsilon && t == a1.n && p in a1.final)
    {
      ConcatDest(a1, a2, p, x);
      CountMember(a1.final, p);
      RepeatMember([a1.n], Count(a1.final, p), t);
    }
  }

  /** a2's part of a1 . a2 moves exactly as a2 does. */
  lemma ConcatMirrors(a1: Automaton, a2: Automaton)
    requires WellFormed(a1) && WellFormed(a2)
    ensures Mirrors(a2, Concat(a1, a2), a1.n)
  {
    forall p, x | 0 <= p < a2.n ensures Dest(Concat(a1, a2), p + a1.n, x) == ShiftSeq(Dest(a2, p, x), a1.n) {
      ConcatDest(a1, a2, p + a1.n, x);
    }
  }

  lemma ConcatHasEntries(a1: Automaton, a2: Automaton)
    requires WellFormed(a1) && WellFormed(a2)
    ensures ConcatEntries(a1, a2, Concat(a1, a2))
  {
    ConcatBridges(a1, a2);
    ConcatMirrors(a1, a2);
    MirrorsEmbeds(a2, Concat(a1, a2), a1.n);
    ShiftedFinals(a2, Concat(a1, a2), a1.n);
  }

  lemma ConcatHasExits(a1: Automaton, a2: Automaton)
    requires WellFormed(a1) && WellFormed(a2)
    ensures ConcatExits(a1, a2, Concat(a1, a2))
  {
    ConcatBridges(a1, a2);
    ConcatMirrors(a1, a2);
    ShiftedFinals(a2, Concat(a1, a2), a1.n);
  }

  /**
   * A run of c, which has concatenation's exits, from a state p of a1 to a
   * final state reads a word of a1 from p followed by a word of a2.
   */
  lemma {:induction false} ConcatFirstPart(a1: Automaton, a2: Automaton, c: Automaton, p: int, steps: seq<Step>, q: int)
    requires WellFormed(a1) && WellFormed(a2) && ConcatExits(a1, a2, c)
    requires 0 <= p < a1.n && IsPath(c, p, steps, q) && q in c.final
    ensures exists k :: 0 <= k <= |Word(steps)| && AcceptsFrom(a1, p, Word(steps)[..k]) && Accepts(a2, Word(steps)[k..])
    decreases |steps|
  {
    assert steps != [];
    var x, t, rest := steps[0].symbol, steps[0].target, steps[1..];
    var pre := if x == Epsilon then [] else [x];
    assert Word(steps) == pre + Word(rest);
    if t in Dest(a1, p, x) {
      DestWithin(a1, 0, a1.n, p, x);
      WithinMember(Dest(a1, p, x), 0, a1.n, t);
      ConcatFirstPart(a1, a2, c, t, rest, q);
      var k :| 0 <= k <= |Word(rest)| && AcceptsFrom(a1, t, Word(rest)[..k]) && Accepts(a2, Word(rest)[k..]);
      AcceptsCons(a1, p, x, t, Word(rest)[..k]);
      ConsSplit(pre, Word(rest), k);
      assert AcceptsFrom(a1, p, Word(steps)[..|pre| + k]);
    } else {
      FinalAccepts(a1, p);
      assert AcceptsFrom(c, 0 + a1.n, Word(rest)) by {
        assert IsPath(c, t, rest, q);
      }
      ProjectAccepts(a2, c, a1.n, 0, Word(rest));
      assert Word(steps)[..0] == [] && Word(steps)[0..] == Word(rest);
    }
  }

  /** A word of a1 followed by a word of a2 is accepted by c, which has concatenation's entries. */
  lemma ConcatComplete(a1: Automaton, a2: Automaton, c: Automaton, w: string, k: int)
    requires WellFormed(a1) && WellFormed(a2) && ConcatEntries(a1, a2, c)
    requires 0 <= k <= |w| && Accepts(a1, w[..k]) && Accepts(a2, w[k..])
    ensures Accepts(c, w)
  {
    var s1: seq<Step>, f :| IsPath(a1, 0, s1, f) && f in a1.final && Word(s1) == w[..k];
    EmbedPath(a1, c, 0, 0, s1, f);
    ShiftStepsWord(s1, 0);
    EmbedAccepts(a2, c, a1.n, 0, w[k..]);
    AcceptsCons(c, f, Epsilon, a1.n, w[k..]);
    assert [] + w[k..] == w[k..];
    PathThenAccepts(c, 0, ShiftSteps(s1, 0), f, w[k..]);
    assert w[..k] + w[k..] == w;
  }

  /** concatenation accepts the words that split into a word of a1 followed by a word of a2. */
  lemma ConcatLanguage(a1: Automaton, a2: Automaton, w: string)
    requires WellFormed(a1) && WellFormed(a2)
    ensures Accepts(Concat(a1, a2), w) <==> exists k :: 0 <= k <= |w| && Accepts(a1, w[..k]) && Accepts(a2, w[k..])
  {
    var c := Concat(a1, a2);
    if Accepts(c, w) {
      ConcatHasExits(a1, a2);
      var steps: seq<Step>, q :| IsPath(c, 0, steps, q) && q in c.final && Word(steps) == w;
      ConcatFirstPart(a1, a2, c, 0, steps, q);
    }
    if exists k :: 0 <= k <= |w| && Accepts(a1, w[..k]) && Accepts(a2, w[k..]) {
      var k :| 0 <= k <= |w| && Accepts(a1, w[..k]) && Accepts(a2, w[k..]);
      ConcatHasEntries(a1, a2);
      ConcatComplete(a1, a2, c, w, k);
    }
  }

  // Star

  /** w splits into zero or more non-empty words of a. */
  ghost predicate InStar(a: Automaton, w: string)
    decreases |w|
  {
    w == [] || exists k :: 0 < k <= |w| && Accepts(a, w[..k]) && InStar(a, w[k..])
  }

  /** A word of a followed by a word of InStar(a) is in InStar(a); an empty first word adds nothing. */
  lemma StarGlue(a: Automaton, w: string, k: int)
    requires 0 <= k <= |w| && Accepts(a, w[..k]) && InStar(a, w[k..])
    ensures InStar(a, w)
  {
    if k == 0 {
      assert w[k..] == w;
    }
  }

  /**
   * The moves of star that runs into it use: state 0 is final and moves on
   * epsilon to 1, a1's moves sit one place up, and each final state of a1
   * moves on epsilon back to 0.
   */
  ghost predicate StarEntries(a1: Automaton, s: Automaton)
  {
    && Embeds(a1, s, 1)
    && 0 in s.final
    && 1 in Dest(s, 0, Epsilon)
    && forall f :: f in a1.final ==> 0 in Dest(s, f + 1, Epsilon)
  }

  /**
   * The moves of star that runs out of it are limited to: state 0 moves only
   * on epsilon to 1, a state of a1's part moves as in a1 or, when final in
   * a1, on epsilon to 1 or 0, and the final states besides 0 are a1's.
   */
  ghost predicate StarExits(a1: Automaton, s: Automaton)
  {
    && FinalsReflect(a1, s, 1)
    && (forall x, t :: t in Dest(s, 0, x) ==> x == Epsilon && t == 1)
    && forall q, x, t :: 1 <= q <= a1.n && t in Dest(s, q, x) ==>
         t - 1 in Dest(a1, q - 1, x) || (x == Epsilon && q - 1 in a1.final && (t == 1 || t == 0))
  }

  /** The runs into a1*. */
  lemma StarHasEntries(a1: Automaton)
    requires WellFormed(a1)
    ensures StarEntries(a1, Star(a1))
  {
    var s := Star(a1);
    StarDest(a1, 0, Epsilon);
    forall f | f in a1.final ensures 0 in Dest(s, f + 1, Epsilon) {
      WithinMember(a1.final, 0, a1.n, f);
      StarDest(a1, f + 1, Epsilon);
      CountMember(a1.final, f);
      RepeatMember([1, 0], Count(a1.final, f), 0);
    }
    forall p, x, q | 0 <= p < a1.n && q in Dest(a1, p, x) ensures q + 1 in Dest(s, p + 1, x) {
      StarDest(a1, p + 1, x);
      ShiftMember(Dest(a1, p, x), 1, q + 1);
    }
  }

  /** The moves out of a1*'s start. */
  lemma StarStartMoves(a1: Automaton)
    requires WellFormed(a1)
    ensures forall x, t :: t in Dest(Star(a1), 0, x) ==> x == Epsilon && t == 1
  {
    forall x, t | t in Dest(Star(a1), 0, x) ensures x == Epsilon && t == 1 {
      StarDest(a1, 0, x);
    }
  }

  /** The moves out of a1*'s other states. */
  lemma StarInnerMoves(a1: Automaton)
    requires WellFormed(a1)
    ensures forall q, x, t :: 1 <= q <= a1.n && t in Dest(Star(a1), q, x) ==>
              t - 1 in Dest(a1, q - 1, x) || (x == Epsilon && q - 1 in a1.final && (t == 1 || t == 0))
  {
    forall q, x, t | 1 <= q <= a1.n && t in Dest(Star(a1), q, x)
      ensures t - 1 in Dest(a1, q - 1, x) || (x == Epsilon && q - 1 in a1.final && (t == 1 || t == 0))
    {
      StarDest(a1, q, x);
      ShiftMember(Dest(a1, q - 1, x), 1, t);
      CountMember(a1.final, q - 1);
      RepeatMember([1, 0], Count(a1.final, q - 1), t);
    }
  }

  /** The runs out of a1*. */
  lemma StarHasExits(a1: Automaton)
    requires WellFormed(a1)
    ensures StarExits(a1, Star(a1))
  {
    StarStartMoves(a1);
    StarInnerMoves(a1);
    StarFinals(a1, Star(a1));
  }

  /** The final states of s are 0 and a1's one place up. */
  lemma StarFinals(a1: Automaton, s: Automaton)
    requires s.final == [0] + ShiftSeq(a1.final, 1)
    ensures FinalsReflect(a1, s, 1)
  {
    forall q | q in s.final && 1 <= q < 1 + a1.n ensures q - 1 in a1.final {
      ShiftMember(a1.final, 1, q);
    }
  }

  /** w splits into a word a accepts from p followed by a word of InStar(a). */
  ghost predicate StarTail(a: Automaton, p: int, w: string)
  {
    exists k :: 0 <= k <= |w| && AcceptsFrom(a, p, w[..k]) && InStar(a, w[k..])
  }

  /** A final state of a puts every word of InStar(a) in its StarTail. */
  lemma StarTailFinal(a: Automaton, p: int, w: string)
    requires p in a.final && InStar(a, w)
    ensures StarTail(a, p, w)
  {
    FinalAccepts(a, p);
    assert w[..0] == [] && w[0..] == w;
  }

  /** A move of a on x from p to t extends t's StarTail to p. */
  lemma StarTailCons(a: Automaton, p: int, x: char, t: int, w: string)
    requires t in Dest(a, p, x) && StarTail(a, t, w)
    ensures StarTail(a, p, (if x == Epsilon then [] else [x]) + w)
  {
    var pre := if x == Epsilon then [] else [x];
    var k :| 0 <= k <= |w| && AcceptsFrom(a, t, w[..k]) && InStar(a, w[k..]);
    AcceptsCons(a, p, x, t, w[..k]);
    ConsSplit(pre, w, k);
    assert AcceptsFrom(a, p, (pre + w)[..|pre| + k]) && InStar(a, (pre + w)[|pre| + k..]);
  }

  /** The StarTail of a's initial state lies in InStar(a). */
  lemma StarTailStart(a: Automaton, w: string)
    requires StarTail(a, 0, w)
    ensures InStar(a, w)
  {
    var k :| 0 <= k <= |w| && AcceptsFrom(a, 0, w[..k]) && InStar(a, w[k..]);
    StarGlue(a, w, k);
  }

  /**
   * A run of s, which has star's exits, to a final state: from 0 it reads a
   * word of InStar(a1); from a state p of a1's part it reads a word of the
   * StarTail of p - 1.
   */
  lemma {:induction false} StarRun(a1: Automaton, s: Automaton, p: int, steps: seq<Step>, q: int)
    requires WellFormed(a1) && StarExits(a1, s)
    requires 0 <= p <= a1.n && IsPath(s, p, steps, q) && q in s.final
    ensures p == 0 ==> InStar(a1, Word(steps))
    ensures 0 < p ==> StarTail(a1, p - 1, Word(steps))
    decreases |steps|
  {
    if steps == [] {
      if 0 < p {
        StarTailFinal(a1, p - 1, []);
      }
    } else {
      var x, t, rest := steps[0].symbol, steps[0].target, steps[1..];
      var pre, w := if x == Epsilon then [] else [x], Word(rest);
      assert Word(steps) == pre + w;
      assert x == Epsilon ==> Word(steps) == w;
      if p == 0 {
        StarRun(a1, s, 1, rest, q);
        StarTailStart(a1, w);
      } else if t - 1 in Dest(a1, p - 1, x) {
        DestWithin(a1, 0, a1.n, p - 1, x);
        WithinMember(Dest(a1, p - 1, x), 0, a1.n, t - 1);
        StarRun(a1, s, t, rest, q);
        StarTailCons(a1, p - 1, x, t - 1, w);
      } else {
        StarRun(a1, s, t, rest, q);
        if t == 1 {
          StarTailStart(a1, w);
        }
        StarTailFinal(a1, p - 1, w);
      }
    }
  }

  /** A word of a1, then a word star accepts: star accepts the two together. */
  lemma StarPrepend(a1: Automaton, s: Automaton, w: string, k: int)
    requires WellFormed(a1) && StarEntries(a1, s)
    requires 0 <= k <= |w| && Accepts(a1, w[..k]) && Accepts(s, w[k..])
    ensures Accepts(s, w)
  {
    var s1: seq<Step>, f :| IsPath(a1, 0, s1, f) && f in a1.final && Word(s1) == w[..k];
    EmbedPath(a1, s, 1, 0, s1, f);
    ShiftStepsWord(s1, 1);
    AcceptsCons(s, f + 1, Epsilon, 0, w[k..]);
    assert [] + w[k..] == w[k..];
    PathThenAccepts(s, 1, ShiftSteps(s1, 1), f + 1, w[k..]);
    assert w[..k] + w[k..] == w;
    AcceptsCons(s, 0, Epsilon, 1, w);
    assert [] + w == w;
  }

  /** Every word of InStar(a1) is accepted by s, which has star's entries. */
  lemma {:induction false} StarComplete(a1: Automaton, s: Automaton, w: string)
    requires WellFormed(a1) && StarEntries(a1, s) && InStar(a1, w)
    ensures Accepts(s, w)
    decreases |w|
  {
    if w == [] {
      FinalAccepts(s, 0);
    } else {
      var k :| 0 < k <= |w| && Accepts(a1, w[..k]) && InStar(a1, w[k..]);
      StarComplete(a1, s, w[k..]);
      StarPrepend(a1, s, w, k);
    }
  }

  /** star accepts exactly the words that split into words of its operand. */
  lemma StarLanguage(a1: Automaton, w: string)
    requires WellFormed(a1)
    ensures Accepts(Star(a1), w) <==> InStar(a1, w)
  {
    var s := Star(a1);
    if Accepts(s, w) {
      StarHasExits(a1);
      var steps: seq<Step>, q :| IsPath(s, 0, steps, q) && q in s.final && Word(steps) == w;
      StarRun(a1, s, 0, steps, q);
    }
    if InStar(a1, w) {
      StarHasEntries(a1);
      StarComplete(a1, s, w);
    }
  }
}
