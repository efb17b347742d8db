/** Bytes, small integer helpers and sequence folds shared by the models. */
module Bytes {

  type byte = b: int | 0 <= b < 256

  type int16 = x: int | -32768 <= x < 32768

  function Min(a: int, b: int): int {
    if a < b then a else b
  }

  function Abs(a: int): int {
    if a < 0 then -a else a
  }

  /** C's integer division: the quotient is truncated towards zero. */
  function TruncDiv(a: int, d: int): int
    requires d > 0
  {
    if a >= 0 then a / d else -((-a) / d)
  }

  /** The quotient's multiple is as close to a as it gets on the side of zero. */
  lemma TruncTowardsZero(a: int, d: int)
    requires d > 0
    ensures var m := d * TruncDiv(a, d);
            Abs(m) <= Abs(a) < Abs(m) + d && (a >= 0 ==> m >= 0) && (a <= 0 ==> m <= 0)
  {
    QuotientMultiple(Abs(a), d);
  }

  lemma QuotientMultiple(a: nat, d: int)
    requires d > 0
    ensures 0 <= d * (a / d) <= a < d * (a / d) + d
    ensures d * -(a / d) == -(d * (a / d))
  {
    assert a == d * (a / d) + a % d;
  }

  function Sum(xs: seq<int>): (s: int) {
    if xs == [] then 0 else Sum(xs[..|xs| - 1]) + xs[|xs| - 1]
  }

  lemma SumOfOne(x: int)
    ensures Sum([x]) == x
  {
    assert [x][..0] == [];
  }

  lemma {:induction false} SumAppend(a: seq<int>, b: seq<int>)
    ensures Sum(a + b) == Sum(a) + Sum(b)
  {
    if b == [] {
      assert a + b == a;
    } else {
      SumAppend(a, b[..|b| - 1]);
      assert (a + b)[..|a + b| - 1] == a + b[..|b| - 1];
    }
  }

  lemma SmallMultiple(d: int, n: int)
    requires -n < d * n < n
    ensures d == 0
  {
  }

  lemma DivModOf(q: int, n: nat, a: nat)
    requires a < n
    ensures (q * n + a) / n == q && (q * n + a) % n == a
  {
    var k := q * n + a;
    assert k == (k / n) * n + k % n;
    assert (q - k / n) * n == k % n - a;
    SmallMultiple(q - k / n, n);
  }

  lemma SliceSlice<T>(s: seq<T>, a: nat, b: nat, lo: nat, hi: nat)
    requires a <= b <= |s| && lo <= hi <= b - a
    ensures s[a..b][lo..hi] == s[a + lo..a + hi]
  {
    var l, r := s[a..b][lo..hi], s[a + lo..a + hi];
    assert forall k :: 0 <= k < hi - lo ==> l[k] == s[a + lo + k] == r[k];
  }

  /** The joined contents of a list of blocks (reads, chunks, lines). */
  function Concat<T>(blocks: seq<seq<T>>): seq<T> {
    if blocks == [] then [] else blocks[0] + Concat(blocks[1..])
  }

  lemma {:induction false} ConcatAppend<T>(a: seq<seq<T>>, b: seq<seq<T>>)
    ensures Concat(a + b) == Concat(a) + Concat(b)
  {
    if a == [] {
      assert a + b == b;
    } else {
      assert (a + b)[0] == a[0] && (a + b)[1..] == a[1..] + b;
      ConcatAppend(a[1..], b);
    }
  }
}
