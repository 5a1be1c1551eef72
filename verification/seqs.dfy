/**
 * Sequence and set helpers shared by the automaton model: Python's range(n) and
 * set(l), filtered list comprehensions, sorted(s) for a set of small integers, and
 * the "indices whose set meets another set" scan that several reductions use to
 * compute their final states.
 */
module Seqs {

  /** The integers 0 .. n-1 (Python's range(n)). */
  function Range(n: int): (r: set<int>)
    ensures forall x :: x in r <==> 0 <= x < n
    ensures n >= 0 ==> |r| == n
    decreases if n < 0 then 0 else n
  {
    if n <= 0 then {} else Range(n - 1) + {n - 1}
  }

  /** The elements of a list, as a set (Python's set(l)). */
  function ToSet<T>(s: seq<T>): set<T>
  {
    set x | x in s
  }

  /** Every element of s lies in [lo, hi). */
  predicate Within(s: seq<int>, lo: int, hi: int)
  {
    forall i :: 0 <= i < |s| ==> lo <= s[i] < hi
  }

  predicate StrictlyIncreasing(s: seq<int>)
  {
    forall i, j :: 0 <= i < j < |s| ==> s[i] < s[j]
  }

  predicate Distinct<T(==)>(s: seq<T>)
  {
    forall i, j :: 0 <= i < j < |s| ==> s[i] != s[j]
  }

  /** Each element of s increased by k. */
  function ShiftSeq(s: seq<int>, k: int): seq<int>
  {
    seq(|s|, i requires 0 <= i < |s| => s[i] + k)
  }

  /** How many times x occurs in s. */
  function Count(s: seq<int>, x: int): nat
  {
    if s == [] then 0 else (if s[0] == x then 1 else 0) + Count(s[1..], x)
  }

  /** d repeated m times, end to end. */
  function Repeat(d: seq<int>, m: nat): seq<int>
  {
    if m == 0 then [] else d + Repeat(d, m - 1)
  }

  /** Concatenation regroups freely. */
  lemma ConcatAssoc(s: seq<int>, t: seq<int>, u: seq<int>)
    ensures (s + t) + u == s + (t + u)
  {
  }

  /** Repeat over the occurrences of x in s, unfolded by the head of s. */
  lemma RepeatCountStep(s: seq<int>, x: int, d: seq<int>)
    requires s != []
    ensures Repeat(d, Count(s, x))
         == if s[0] == x then d + Repeat(d, Count(s[1..], x)) else Repeat(d, Count(s[1..], x))
  {
  }

  /** The elements of s that lie in keep, in their order in s. */
  function Keep(s: seq<int>, keep: set<int>): (r: seq<int>)
    ensures forall x :: x in r <==> x in s && x in keep
  {
    if s == [] then [] else (if s[0] in keep then [s[0]] else []) + Keep(s[1..], keep)
  }

  /** The members of s in [lo, hi), in increasing order (sorted(s) for a set of states). */
  function Enumerate(s: set<int>, lo: int, hi: int): (r: seq<int>)
    ensures forall x :: x in r <==> x in s && lo <= x < hi
    ensures StrictlyIncreasing(r)
    ensures Within(r, lo, hi)
    decreases hi - lo
  {
    if lo >= hi then []
    else (if lo in s then [lo] else []) + Enumerate(s, lo + 1, hi)
  }

  /** The indices i >= from, in increasing order, whose set sets[i] shares an element with f. */
  function MeetingFrom(sets: seq<set<int>>, f: set<int>, from: nat): (r: seq<int>)
    ensures forall x :: x in r <==> from <= x < |sets| && sets[x] * f != {}
    ensures StrictlyIncreasing(r)
    ensures Within(r, from, |sets|)
    decreases |sets| - from
  {
    if from >= |sets| then []
    else (if sets[from] * f != {} then [from] else []) + MeetingFrom(sets, f, from + 1)
  }

  /** The indices of sets, in increasing order, whose set meets f. */
  function MeetingIndices(sets: seq<set<int>>, f: set<int>): seq<int>
  {
    MeetingFrom(sets, f, 0)
  }

  lemma CountAbsent(s: seq<int>, x: int)
    requires x !in s
    ensures Count(s, x) == 0
  {
    if s != [] {
      assert s == [s[0]] + s[1..];
      CountAbsent(s[1..], x);
    }
  }

  lemma {:induction false} CountShift(s: seq<int>, k: int, x: int)
    ensures Count(ShiftSeq(s, k), x + k) == Count(s, x)
  {
    if s != [] {
      assert ShiftSeq(s, k)[1..] == ShiftSeq(s[1..], k);
      CountShift(s[1..], k, x);
    }
  }

  lemma {:induction false} WithinRepeat(d: seq<int>, m: nat, lo: int, hi: int)
    requires Within(d, lo, hi)
    ensures Within(Repeat(d, m), lo, hi)
  {
    if m > 0 {
      WithinRepeat(d, m - 1, lo, hi);
      var r := Repeat(d, m - 1);
      assert Repeat(d, m) == d + r;
      assert forall i :: |d| <= i < |d| + |r| ==> (d + r)[i] == r[i - |d|];
    }
  }

  /** x occurs in s exactly when it is counted there. */
  lemma {:induction false} CountMember(s: seq<int>, x: int)
    ensures Count(s, x) > 0 <==> x in s
  {
    if s != [] {
      CountMember(s[1..], x);
      assert x in s <==> s[0] == x || x in s[1..];
    }
  }

  /** The members of d repeated m times are those of d, when m > 0. */
  lemma {:induction false} RepeatMember(d: seq<int>, m: nat, x: int)
    ensures x in Repeat(d, m) <==> m > 0 && x in d
  {
    if m > 0 {
      RepeatMember(d, m - 1, x);
      assert x in d + Repeat(d, m - 1) <==> x in d || x in Repeat(d, m - 1);
    }
  }

  /** x is in s shifted by k exactly when x - k is in s. */
  lemma ShiftMember(s: seq<int>, k: int, x: int)
    ensures x in ShiftSeq(s, k) <==> x - k in s
  {
    if x in ShiftSeq(s, k) {
      var i :| 0 <= i < |s| && ShiftSeq(s, k)[i] == x;
      assert s[i] == x - k;
    }
    if x - k in s {
      var i :| 0 <= i < |s| && s[i] == x - k;
      assert ShiftSeq(s, k)[i] == x;
    }
  }

  /** A member of a sequence within [lo, hi) lies in [lo, hi). */
  lemma WithinMember(s: seq<int>, lo: int, hi: int, x: int)
    requires Within(s, lo, hi) && x in s
    ensures lo <= x < hi
  {
  }

  lemma WithinShift(s: seq<int>, k: int, lo: int, hi: int)
    requires Within(s, lo, hi)
    ensures Within(ShiftSeq(s, k), lo + k, hi + k)
  {
  }

  lemma WithinConcat(s: seq<int>, t: seq<int>, lo: int, hi: int)
    requires Within(s, lo, hi) && Within(t, lo, hi)
    ensures Within(s + t, lo, hi)
  {
    assert forall i :: |s| <= i < |s| + |t| ==> (s + t)[i] == t[i - |s|];
  }

  lemma WithinWiden(s: seq<int>, lo: int, hi: int, lo': int, hi': int)
    requires Within(s, lo, hi) && lo' <= lo && hi <= hi'
    ensures Within(s, lo', hi')
  {
  }

  /** A non-empty set has a member. */
  lemma NonEmptyMember(t: set<int>)
    requires t != {}
    ensures exists y :: y in t
  {
    if forall y :: y !in t {
      assert false;
    }
  }
}
