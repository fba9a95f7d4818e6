/** The slider controller (Terry/script.js:4-5, 53-68): a row of slides, one
    index `currentSlide`, and `changeSlide(direction)` which moves the
    `active` class from the current slide to its cyclic neighbour. The
    previous and next buttons call ChangeSlide(-1) and ChangeSlide(1); the
    five-second interval is one more ChangeSlide(1). */
module Slides {
  import opened Seqs

  /** JavaScript's `a % n`: the remainder of division truncated toward zero,
      which takes the sign of `a` (unlike Dafny's `%`, which never is negative). */
  function JsRemainder(a: int, n: int): (r: int)
    requires n != 0
    ensures a >= 0 ==> 0 <= r < (if n > 0 then n else -n)
    ensures a < 0 ==> -(if n > 0 then n else -n) < r <= 0
  {
    var m := if n > 0 then n else -n;
    if a >= 0 then a % m else -((-a) % m)
  }

  lemma {:induction false} MulAtLeast(x: int, n: int)
    requires x >= 1 && n > 0
    ensures x * n >= n
  {
    if x > 1 {
      MulAtLeast(x - 1, n);
      assert x * n == (x - 1) * n + n;
    }
  }

  /** The remainder is determined by any quotient-and-remainder split. */
  lemma {:induction false} ModUnique(a: int, n: int, q: int, r: int)
    requires n > 0 && 0 <= r < n && a == q * n + r
    ensures a % n == r
  {
    var q2, r2 := a / n, a % n;
    assert (q2 - q) * n == r - r2;
    if q2 > q {
      MulAtLeast(q2 - q, n);
    }
    if q > q2 {
      MulAtLeast(q - q2, n);
    }
  }

  /** The index `(current + direction + length) % length` of changeSlide, for
      one step back or forward: the neighbouring slide, wrapping at both ends. */
  function Advance(i: nat, d: int, n: nat): (j: nat)
    requires i < n && (d == -1 || d == 1)
    ensures j < n
    ensures d == 1 ==> j == (if i == n - 1 then 0 else i + 1)
    ensures d == -1 ==> j == (if i == 0 then n - 1 else i - 1)
  {
    var a := i + d + n;
    assert a % n == (if a < n then a else if a < 2 * n then a - n else 0) by {
      if a < n {
        ModUnique(a, n, 0, a);
      } else if a < 2 * n {
        ModUnique(a, n, 1, a - n);
      } else {
        ModUnique(a, n, 2, 0);
      }
    }
    JsRemainder(a, n)
  }

  /** Advance is the remainder of changeSlide's expression. */
  lemma {:induction false} AdvanceIsMod(i: nat, d: int, n: nat)
    requires i < n && (d == -1 || d == 1)
    ensures Advance(i, d, n) == (i + d + n) % n
  {
    var a := i + d + n;
    if a < n {
      ModUnique(a, n, 0, a);
    } else if a < 2 * n {
      ModUnique(a, n, 1, a - n);
    } else {
      ModUnique(a, n, 2, 0);
    }
  }

  /** A step forward undoes a step back and vice versa. */
  lemma {:induction false} AdvanceBackAndForth(i: nat, n: nat)
    requires i < n
    ensures Advance(Advance(i, 1, n), -1, n) == i
    ensures Advance(Advance(i, -1, n), 1, n) == i
  {
  }

  /** The slide reached after `k` steps forward. */
  function Forward(i: nat, k: nat, n: nat): (j: nat)
    requires i < n
    ensures j < n
  {
    if k == 0 then i else Advance(Forward(i, k - 1, n), 1, n)
  }

  /** One step forward from `a mod n` is `(a + 1) mod n`. */
  lemma {:induction false} AdvanceMod(a: nat, n: nat)
    requires n > 0
    ensures Advance(a % n, 1, n) == (a + 1) % n
  {
    var q, p := a / n, a % n;
    assert a == q * n + p && 0 <= p < n;
    if p == n - 1 {
      assert (q + 1) * n == q * n + n;
      ModUnique(a + 1, n, q + 1, 0);
    } else {
      ModUnique(a + 1, n, q, p + 1);
    }
  }

  /** `k` steps forward land on `(i + k) mod n`. */
  lemma {:induction false} ForwardIsModular(i: nat, k: nat, n: nat)
    requires i < n
    ensures Forward(i, k, n) == (i + k) % n
  {
    if k == 0 {
      ModUnique(i, n, 0, i);
    } else {
      ForwardIsModular(i, k - 1, n);
      AdvanceMod(i + k - 1, n);
    }
  }

  /** The auto-advance comes back to where it started after one full round. */
  lemma {:induction false} FullRound(i: nat, n: nat)
    requires i < n
    ensures Forward(i, n, n) == i
  {
    ForwardIsModular(i, n, n);
    ModUnique(i + n, n, 1, i);
  }

  class Slider {
    var current: nat
    const active: array<bool>   // whether each slide carries the `active` class

    ghost predicate Valid()
      reads this
    {
      current == 0 || current < active.Length
    }

    /** `currentSlide = 0` over the slides found in the page, with whatever
        `active` classes the markup gives them. */
    constructor (flags: seq<bool>)
      ensures Valid() && fresh(active)
      ensures current == 0 && active[..] == flags
    {
      current := 0;
      active := new bool[|flags|](i requires 0 <= i < |flags| => flags[i]);
    }

    /** changeSlide(direction): deactivate the current slide, move the index
        one step, activate the new current slide. An empty slider is excluded:
        there the first step reads `classList` of an undefined slide and throws. */
    method ChangeSlide(direction: int)
      requires Valid() && active.Length > 0
      requires direction == -1 || direction == 1
      modifies this`current, active
      ensures Valid()
      ensures current == Advance(old(current), direction, active.Length)
      ensures active[..] == old(active[..])[old(current) := false][current := true]
      ensures forall j :: 0 <= j < active.Length && j != old(current) && j != current ==> active[j] == old(active[j])
      ensures old(active[..]) == OnlyAt(active.Length, old(current)) ==> active[..] == OnlyAt(active.Length, current)
    {
      active[current] := false;
      current := JsRemainder(current + direction + active.Length, active.Length);
      active[current] := true;
    }
  }
}
