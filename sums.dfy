/**
 * Sums over finite sets of symbols and over sequences of symbols, used to
 * state that the counts add up to the input's length and what a compressed
 * string's length is.
 */
module Sums {

  /** The symbols occurring in `s`. */
  function Symbols(s: string): set<char> {
    set c | c in s
  }

  /** f summed over the symbols of `ks`, in no particular order. */
  ghost function SumOver(ks: set<char>, f: char -> nat): nat
    decreases ks
  {
    if ks == {} then 0
    else
      var k :| k in ks;
      f(k) + SumOver(ks - {k}, f)
  }

  /** Each symbol's number of occurrences in `s` times g. */
  function CountTimes(s: string, g: char -> nat): char -> nat {
    c => multiset(s)[c] * g(c)
  }

  /** f summed over the positions of `s`. */
  function SeqSum(s: string, f: char -> nat): nat {
    if s == [] then 0 else SeqSum(s[..|s| - 1], f) + f(s[|s| - 1])
  }

  /** SumOver does not depend on which element it takes first. */
  lemma {:induction false} SumOverRemove(ks: set<char>, f: char -> nat, x: char)
    requires x in ks
    ensures SumOver(ks, f) == f(x) + SumOver(ks - {x}, f)
    decreases ks
  {
    var k :| k in ks && SumOver(ks, f) == f(k) + SumOver(ks - {k}, f);
    if k != x {
      SumOverRemove(ks - {k}, f, x);
      SumOverRemove(ks - {x}, f, k);
      assert ks - {k} - {x} == ks - {x} - {k};
    }
  }

  /** Two functions that agree on `ks` have the same sum over it. */
  lemma {:induction false} SumOverAgree(ks: set<char>, f: char -> nat, g: char -> nat)
    requires forall c :: c in ks ==> f(c) == g(c)
    ensures SumOver(ks, f) == SumOver(ks, g)
    decreases ks
  {
    if ks != {} {
      var k :| k in ks && SumOver(ks, f) == f(k) + SumOver(ks - {k}, f);
      SumOverRemove(ks, g, k);
      SumOverAgree(ks - {k}, f, g);
    }
  }

  /** Adding one symbol to a set, with f growing by `extra` at that symbol only. */
  lemma SumOverStep(ks: set<char>, c: char, f: char -> nat, f': char -> nat, extra: nat)
    requires forall d :: d in ks && d != c ==> f'(d) == f(d)
    requires f'(c) == f(c) + extra
    requires c !in ks ==> f(c) == 0
    ensures SumOver(ks + {c}, f') == SumOver(ks, f) + extra
  {
    SumOverRemove(ks + {c}, f', c);
    assert ks + {c} - {c} == ks - {c};
    SumOverAgree(ks - {c}, f', f);
    if c in ks {
      SumOverRemove(ks, f, c);
    } else {
      assert ks - {c} == ks;
    }
  }

  /**
   * Summing g over every position of `s` is summing, over each distinct
   * symbol, its number of occurrences times g.
   */
  lemma {:induction false} CountingSum(s: string, g: char -> nat)
    ensures SumOver(Symbols(s), CountTimes(s, g)) == SeqSum(s, g)
    decreases |s|
  {
    if s != [] {
      var init, x := s[..|s| - 1], s[|s| - 1];
      CountingSum(init, g);
      SnocFacts(s, g);
      SumOverStep(Symbols(init), x, CountTimes(init, g), CountTimes(s, g), g(x));
    }
  }

  /** What appending the last symbol `x` of `s` changes in the counts. */
  lemma SnocFacts(s: string, g: char -> nat)
    requires s != []
    ensures var init, x := s[..|s| - 1], s[|s| - 1];
      && Symbols(s) == Symbols(init) + {x}
      && SeqSum(s, g) == SeqSum(init, g) + g(x)
      && (forall d :: d != x ==> multiset(s)[d] == multiset(init)[d])
      && multiset(s)[x] * g(x) == multiset(init)[x] * g(x) + g(x)
  {
    var init, x := s[..|s| - 1], s[|s| - 1];
    assert s == init + [x];
    assert multiset(s) == multiset(init) + multiset{x};
    MulSucc(multiset(init)[x], g(x));
  }

  lemma MulSucc(a: nat, b: nat)
    ensures (a + 1) * b == a * b + b
  {
  }
}
