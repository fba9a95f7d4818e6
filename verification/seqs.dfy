/** Sequence helpers shared by the controllers: counting, first-match lookup
    (the document-order lookup of getElementById and querySelector) and the
    "exactly one flag set" shape of the `active` class. */
module Seqs {

  /** Number of occurrences of `x` in `s`. */
  function Count<T(==)>(s: seq<T>, x: T): (n: nat)
    ensures n <= |s|
  {
    if s == [] then 0 else (if s[0] == x then 1 else 0) + Count(s[1..], x)
  }

  lemma {:induction false} CountZero<T>(s: seq<T>, x: T)
    ensures Count(s, x) == 0 <==> x !in s
  {
    if s != [] {
      CountZero(s[1..], x);
      assert s == [s[0]] + s[1..];
    }
  }

  lemma {:induction false} CountAppend<T>(a: seq<T>, b: seq<T>, x: T)
    ensures Count(a + b, x) == Count(a, x) + Count(b, x)
  {
    if a == [] {
      assert a + b == b;
    } else {
      assert (a + b)[1..] == a[1..] + b;
      CountAppend(a[1..], b, x);
    }
  }

  /** With `x` at position `k`, `x` occurs exactly once iff it occurs nowhere else. */
  lemma {:induction false} CountOneAt<T>(s: seq<T>, x: T, k: nat)
    requires k < |s| && s[k] == x
    ensures Count(s, x) == 1 <==> forall j :: 0 <= j < |s| && j != k ==> s[j] != x
  {
    assert s == s[..k] + [x] + s[k+1..];
    CountAppend(s[..k] + [x], s[k+1..], x);
    CountAppend(s[..k], [x], x);
    assert Count([x], x) == 1;
    CountZero(s[..k], x);
    CountZero(s[k+1..], x);
    if Count(s, x) == 1 {
      forall j | 0 <= j < |s| && j != k ensures s[j] != x {
        if j < k { assert s[j] == s[..k][j]; } else { assert s[j] == s[k+1..][j - k - 1]; }
      }
    }
    if forall j :: 0 <= j < |s| && j != k ==> s[j] != x {
      var front := s[..k];
      assert x !in front by {
        forall j | 0 <= j < k ensures front[j] != x { assert front[j] == s[j]; }
      }
      var rest := s[k+1..];
      assert x !in rest by {
        forall j | 0 <= j < |rest| ensures rest[j] != x { assert rest[j] == s[k + 1 + j]; }
      }
    }
  }

  /** Position of the first occurrence of `x` in `s`. */
  function IndexOf<T(==)>(s: seq<T>, x: T): (r: nat)
    requires x in s
    ensures r < |s| && s[r] == x
    ensures forall j :: 0 <= j < r ==> s[j] != x
  {
    if s[0] == x then 0 else 1 + IndexOf(s[1..], x)
  }

  /** A row of `n` flags in which only position `k` is set. */
  function OnlyAt(n: nat, k: nat): (flags: seq<bool>)
    ensures |flags| == n
  {
    seq(n, i => i == k)
  }

  /** A one-hot row has exactly one flag set, and a row with exactly one flag
      set at `k` is the one-hot row for `k`. */
  lemma {:induction false} OnlyAtExactlyOne(flags: seq<bool>, k: nat)
    requires k < |flags| && flags[k]
    ensures flags == OnlyAt(|flags|, k) <==> Count(flags, true) == 1
  {
    CountOneAt(flags, true, k);
    if Count(flags, true) == 1 {
      assert forall j :: 0 <= j < |flags| ==> flags[j] == (j == k);
    }
  }
}
