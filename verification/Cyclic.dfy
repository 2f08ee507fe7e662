/** Indices that run round a ring of `n` slots, as unwrapped counts modulo `n`. */
module Cyclic {
  import Bits

  function Times(q: nat, n: nat): nat { q * n }

  lemma Split(x: nat, n: nat)
    requires n > 0
    ensures x == Times(x / n, n) + x % n
  {}

  lemma ModUnique(x: nat, n: nat, q: nat, r: nat)
    requires r < n && x == Times(q, n) + r
    ensures x % n == r
  {
    Bits.QuotientUnique(x, n, q, r);
  }

  lemma TimesNext(q: nat, n: nat)
    ensures Times(q + 1, n) == Times(q, n) + n
  {}

  lemma NextIndex(x: nat, n: nat)
    requires n > 0
    ensures (x % n + 1) % n == (x + 1) % n
  {
    hide Times;
    Split(x, n);
    if x % n + 1 < n {
      ModUnique(x + 1, n, x / n, x % n + 1);
    } else {
      TimesNext(x / n, n);
      ModUnique(x + 1, n, x / n + 1, 0);
    }
  }

  lemma WrapsRound(a: nat, n: nat)
    requires n > 0
    ensures (a + n) % n == a % n
  {
    hide Times;
    Split(a, n);
    TimesNext(a / n, n);
    ModUnique(a + n, n, a / n + 1, a % n);
  }

  /** The distance between two indices, whichever is larger. */
  lemma Distance(a: nat, b: nat, n: nat)
    requires a <= b < a + n
    ensures (b % n - a % n + n) % n == b - a
    ensures b % n == (if a % n + (b - a) < n then a % n + (b - a) else a % n + (b - a) - n)
  {
    hide Times;
    Split(a, n);
    var d := b - a;
    if a % n + d < n {
      ModUnique(b, n, a / n, a % n + d);
      WrapsRound(d, n);
      Small(d, n);
    } else {
      TimesNext(a / n, n);
      ModUnique(b, n, a / n + 1, a % n + d - n);
      Small(d, n);
    }
  }

  lemma Small(d: nat, n: nat)
    requires d < n
    ensures d % n == d
  {}

  /** Within a window of `n`, different counts have different indices. */
  lemma WindowDistinct(a: nat, b: nat, n: nat)
    requires a < b < a + n
    ensures a % n != b % n
  {
    Distance(a, b, n);
  }
}
