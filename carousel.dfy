/** The project cards' image index: `(i + n) % n` with JavaScript's `%`,
    and the arrow steps built on it. */
module Carousel {

  /** JavaScript's `%` for a positive divisor: the remainder keeps the sign
      of the dividend (it truncates toward zero, unlike Dafny's `%`). */
  function JsRem(a: int, n: int): (r: int)
    requires n > 0
    ensures -n < r < n
    ensures a >= 0 ==> r == a % n
    ensures a <= 0 ==> r == -((-a) % n)
  {
    if a >= 0 then a % n else -((-a) % n)
  }

  /** `(i + n) % n`: the index `setSlide(i)` stores for `n` images. */
  function Wrap(i: int, n: int): int
    requires n >= 1
  {
    JsRem(i + n, n)
  }

  /** From `-n` upward, the stored index is a valid index congruent to `i`;
      the calls the site makes (`index - 1`, `index + 1` from a valid index)
      are all in that range. */
  lemma WrapIsIndex(i: int, n: int)
    requires n >= 1 && i >= -n
    ensures 0 <= Wrap(i, n) < n
    ensures Wrap(i, n) == i % n
  {
    ModUnique(i + n, i / n + 1, i % n, n);
  }

  /** The right arrow: `setSlide(index + 1)`. */
  function Next(index: int, n: int): int
    requires n >= 1
  {
    Wrap(index + 1, n)
  }

  /** The left arrow: `setSlide(index - 1)`. */
  function Prev(index: int, n: int): int
    requires n >= 1
  {
    Wrap(index - 1, n)
  }

  /** Both arrows keep a valid index valid, forward from the last image
      comes back to the first, back from the first goes to the last, and
      each arrow undoes the other. */
  lemma StepsStayInRange(index: int, n: int)
    requires n >= 1 && 0 <= index < n
    ensures 0 <= Next(index, n) < n && 0 <= Prev(index, n) < n
    ensures Next(index, n) == (if index == n - 1 then 0 else index + 1)
    ensures Prev(index, n) == (if index == 0 then n - 1 else index - 1)
    ensures Prev(Next(index, n), n) == index && Next(Prev(index, n), n) == index
  {
    if index == n - 1 {
      ModUnique(index + 1 + n, 2, 0, n);
      ModUnique(n - 1, 0, n - 1, n);
    } else {
      ModUnique(index + 1 + n, 1, index + 1, n);
      ModUnique(index + n, 1, index, n);
    }
    if index == 0 {
      ModUnique(n - 1, 0, n - 1, n);
      ModUnique(2 * n, 2, 0, n);
    } else {
      ModUnique(index - 1 + n, 1, index - 1, n);
      ModUnique(index + n, 1, index, n);
    }
  }

  /** The index after `k` presses of the right arrow from `start`. */
  function Forward(start: int, k: nat, n: int): int
    requires n >= 1
  {
    if k == 0 then start else Next(Forward(start, k - 1, n), n)
  }

  /** `k` forward steps from the first image show image `k mod n`. */
  lemma {:induction false} ForwardFromFirst(k: nat, n: int)
    requires n >= 1
    ensures Forward(0, k, n) == k % n
  {
    if k == 0 {
      ModUnique(0, 0, 0, n);
    } else {
      ForwardFromFirst(k - 1, n);
      var prev := Forward(0, k - 1, n);
      StepsStayInRange(prev, n);
      ModSucc(k - 1, n);
    }
  }

  /** The remainder of a successor: one more, or back to zero after `n - 1`. */
  lemma ModSucc(x: int, n: int)
    requires n >= 1
    ensures (x + 1) % n == if x % n == n - 1 then 0 else x % n + 1
  {
    var q, r := x / n, x % n;
    assert x == q * n + r;
    if r == n - 1 {
      assert x + 1 == (q + 1) * n + 0;
      ModUnique(x + 1, q + 1, 0, n);
    } else {
      ModUnique(x + 1, q, r + 1, n);
    }
  }

  /** Euclidean remainders are unique: `x = q * n + r` with `0 <= r < n`
      determines `x % n`. */
  lemma ModUnique(x: int, q: int, r: int, n: int)
    requires n >= 1 && 0 <= r < n && x == q * n + r
    ensures x % n == r
  {
    var d := q - x / n;
    assert d * n == x % n - r;
    MulBounds(d, n);
  }

  /** A non-zero multiple of `n` is at least `n` away from zero. */
  lemma MulBounds(m: int, n: int)
    requires n >= 1
    ensures m >= 1 ==> m * n >= n
    ensures m <= -1 ==> m * n <= -n
  {
  }
}
