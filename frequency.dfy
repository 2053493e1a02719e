/**
 * Frequency counting: one entry per distinct symbol of the input, holding
 * its number of occurrences. Absent symbols have no entry.
 */
module Frequency {
  import opened Sums

  /** The frequency map that counting `s` produces. */
  function Frequencies(s: string): (m: map<char, nat>)
    ensures m.Keys == Symbols(s)
    ensures forall c :: c in m ==> 1 <= m[c] <= |s|
  {
    map c | c in s :: multiset(s)[c]
  }

  /** Looks a count up, reading an absent key as zero. */
  function CountOf(m: map<char, nat>): char -> nat {
    c => if c in m then m[c] else 0
  }

  /** The sum of all counts in a frequency map. */
  ghost function Total(m: map<char, nat>): nat {
    SumOver(m.Keys, CountOf(m))
  }

  /** Counting one more symbol increments its entry, creating it at 1. */
  lemma FrequenciesSnoc(s: string, c: char)
    ensures Frequencies(s + [c]) == Frequencies(s)[c := CountOf(Frequencies(s))(c) + 1]
  {
    var m, m' := Frequencies(s), Frequencies(s + [c]);
    assert multiset(s + [c]) == multiset(s) + multiset{c};
    assert forall d :: d in s + [c] <==> d in s || d == c;
    assert m'.Keys == m.Keys + {c};
  }

  const Ones: char -> nat := c => 1

  /** The counts add up to the input's length. */
  lemma TotalIsLength(s: string)
    ensures Total(Frequencies(s)) == |s|
  {
    var m := Frequencies(s);
    CountingSum(s, Ones);
    SumOverAgree(Symbols(s), CountTimes(s, Ones), CountOf(m));
    SeqSumOfOnes(s);
  }

  lemma {:induction false} SeqSumOfOnes(s: string)
    ensures SeqSum(s, Ones) == |s|
    decreases |s|
  {
    if s != [] {
      SeqSumOfOnes(s[..|s| - 1]);
    }
  }
}
