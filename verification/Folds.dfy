/** Sums over sequences. */
module Folds {
  function Total<T>(s: seq<T>, f: T -> nat): nat {
    if s == [] then 0 else f(s[0]) + Total(s[1..], f)
  }

  lemma {:induction false} TotalConcat<T>(a: seq<T>, b: seq<T>, f: T -> nat)
    ensures Total(a + b, f) == Total(a, f) + Total(b, f)
  {
    if a == [] {
      assert a + b == b;
    } else {
      TotalConcat(a[1..], b, f);
      assert (a + b)[1..] == a[1..] + b;
    }
  }

  lemma TotalSplit<T>(s: seq<T>, i: nat, f: T -> nat)
    requires i < |s|
    ensures Total(s, f) == Total(s[..i], f) + f(s[i]) + Total(s[i + 1..], f)
  {
    TotalConcat(s[..i], s[i..], f);
    assert s[..i] + s[i..] == s;
    assert s[i..][1..] == s[i + 1..];
  }

  lemma TotalUpdate<T>(s: seq<T>, i: nat, x: T, f: T -> nat)
    requires i < |s|
    ensures Total(s[i := x], f) + f(s[i]) == Total(s, f) + f(x)
  {
    TotalSplit(s, i, f);
    TotalSplit(s[i := x], i, f);
    assert s[i := x][..i] == s[..i] && s[i := x][i + 1..] == s[i + 1..];
  }

  lemma TotalAppend<T>(s: seq<T>, x: T, f: T -> nat)
    ensures Total(s + [x], f) == Total(s, f) + f(x)
  {
    TotalConcat(s, [x], f);
    assert [x][1..] == [];
  }

  lemma {:induction false} TotalSame<T>(a: seq<T>, b: seq<T>, f: T -> nat)
    requires |a| == |b| && forall i :: 0 <= i < |a| ==> f(a[i]) == f(b[i])
    ensures Total(a, f) == Total(b, f)
  {
    if a != [] {
      TotalSame(a[1..], b[1..], f);
    }
  }

  lemma {:induction false} TotalZero<T>(s: seq<T>, f: T -> nat)
    ensures Total(s, f) == 0 <==> forall i :: 0 <= i < |s| ==> f(s[i]) == 0
  {
    if s != [] {
      TotalZero(s[1..], f);
      if forall i :: 0 <= i < |s| ==> f(s[i]) == 0 {
        assert forall i :: 0 <= i < |s[1..]| ==> f(s[1..][i]) == f(s[i + 1]);
      } else {
        var i :| 0 <= i < |s| && f(s[i]) != 0;
        assert i > 0 ==> s[1..][i - 1] == s[i];
      }
    }
  }

  lemma TotalAtLeast<T>(s: seq<T>, i: nat, f: T -> nat)
    requires i < |s|
    ensures f(s[i]) <= Total(s, f)
  {
    TotalSplit(s, i, f);
  }

  lemma TotalTwo<T>(s: seq<T>, i: nat, j: nat, f: T -> nat)
    requires i < j < |s|
    ensures f(s[i]) + f(s[j]) <= Total(s, f)
  {
    TotalSplit(s, j, f);
    TotalAtLeast(s[..j], i, f);
  }

  /** A sum of zeros and ones is at most the number of places that can be one. */
  lemma {:induction false} TotalBound<T>(s: seq<T>, k: nat, f: T -> nat)
    requires k <= |s| && forall i :: 0 <= i < |s| ==> f(s[i]) <= (if i < k then 1 else 0)
    ensures Total(s, f) <= k
  {
    if k == 0 {
      TotalZero(s, f);
    } else {
      TotalBound(s[1..], k - 1, f);
    }
  }

  lemma TotalInsert<T>(s: seq<T>, at: nat, x: T, f: T -> nat)
    requires at <= |s|
    ensures Total(s[..at] + [x] + s[at..], f) == Total(s, f) + f(x)
  {
    TotalConcat(s[..at], s[at..], f);
    assert s[..at] + s[at..] == s;
    TotalAppend(s[..at], x, f);
    TotalConcat(s[..at] + [x], s[at..], f);
  }

  lemma TotalDrop<T>(s: seq<T>, at: nat, f: T -> nat)
    requires at < |s|
    ensures Total(s[..at] + s[at + 1..], f) + f(s[at]) == Total(s, f)
  {
    TotalSplit(s, at, f);
    TotalConcat(s[..at], s[at + 1..], f);
  }
}
