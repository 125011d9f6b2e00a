/** Weighted sums over a sequence of threads: the arithmetic behind the counting invariants. */
module Sums {

  function Sum<T>(f: T -> nat, s: seq<T>): nat {
    if s == [] then 0 else f(s[0]) + Sum(f, s[1..])
  }

  /** Replacing one element changes the sum by the difference of the two weights. */
  lemma {:induction false} SumUpdate<T>(f: T -> nat, s: seq<T>, i: nat, v: T)
    requires i < |s|
    ensures Sum(f, s[i := v]) + f(s[i]) == Sum(f, s) + f(v)
  {
    if i == 0 {
      assert s[i := v][1..] == s[1..];
    } else {
      SumUpdate(f, s[1..], i - 1, v);
      assert s[i := v][1..] == s[1..][i - 1 := v];
    }
  }

  /** One element weighs no more than the whole. */
  lemma {:induction false} SumAtLeastOne<T>(f: T -> nat, s: seq<T>, i: nat)
    requires i < |s|
    ensures f(s[i]) <= Sum(f, s)
  {
    if i > 0 {
      SumAtLeastOne(f, s[1..], i - 1);
    }
  }

  /** Two different elements together weigh no more than the whole. */
  lemma {:induction false} SumAtLeastTwo<T>(f: T -> nat, s: seq<T>, i: nat, j: nat)
    requires i < j < |s|
    ensures f(s[i]) + f(s[j]) <= Sum(f, s)
  {
    if i == 0 {
      SumAtLeastOne(f, s[1..], j - 1);
    } else {
      SumAtLeastTwo(f, s[1..], i - 1, j - 1);
    }
  }

  /** A sum is zero exactly when every weight is. */
  lemma {:induction false} SumZero<T>(f: T -> nat, s: seq<T>)
    ensures Sum(f, s) == 0 <==> forall i :: 0 <= i < |s| ==> f(s[i]) == 0
  {
    if s != [] {
      SumZero(f, s[1..]);
      assert forall i :: 0 < i < |s| ==> s[i] == s[1..][i - 1];
      if Sum(f, s) == 0 {
        forall i | 0 <= i < |s| ensures f(s[i]) == 0 {
          SumAtLeastOne(f, s, i);
        }
      } else if forall i :: 0 <= i < |s| ==> f(s[i]) == 0 {
        forall i | 0 <= i < |s[1..]| ensures f(s[1..][i]) == 0 {
          assert s[1..][i] == s[i + 1];
        }
        assert false;
      }
    }
  }

  lemma {:induction false} SumAppend<T>(f: T -> nat, s: seq<T>, x: T)
    ensures Sum(f, s + [x]) == Sum(f, s) + f(x)
  {
    if s == [] {
      assert s + [x] == [x];
    } else {
      assert (s + [x])[1..] == s[1..] + [x];
      SumAppend(f, s[1..], x);
    }
  }

  /** Summing `Is(c)` over a sequence counts how often c occurs in it. */
  function Is(c: nat): nat -> nat {
    x => if x == c then 1 else 0
  }
}
