/** Bytes, memory images and the splice operation shared by the models that write memory or a device. */
module Bytes {

  type byte = x: int | 0 <= x < 256

  /** `m` with `data` written over it from index `a`, one cell at a time; writing nothing changes nothing,
      wherever it is. */
  function Splice<T>(m: seq<T>, a: nat, data: seq<T>): (r: seq<T>)
    requires |data| == 0 || a + |data| <= |m|
    ensures |r| == |m|
    decreases |data|
  {
    if |data| == 0 then m
    else
      var k := |data| - 1;
      Splice(m, a, data[..k])[a + k := data[k]]
  }

  /** Exactly the cells from `a` change, and they change to `data`. */
  lemma {:induction false} SpliceAt<T>(m: seq<T>, a: nat, data: seq<T>)
    requires |data| == 0 || a + |data| <= |m|
    ensures forall i :: 0 <= i < |m| ==> Splice(m, a, data)[i] == if a <= i < a + |data| then data[i - a] else m[i]
    decreases |data|
  {
    if |data| > 0 {
      SpliceAt(m, a, data[..|data| - 1]);
    }
  }

  function Zeros(n: nat): (r: seq<byte>)
    ensures |r| == n && forall i :: 0 <= i < n ==> r[i] == 0
  {
    seq(n, _ => 0)
  }

  /** The half-open ranges [a, a+n) and [b, b+k) share no address. */
  predicate Apart(a: nat, n: nat, b: nat, k: nat) {
    n == 0 || k == 0 || a + n <= b || b + k <= a
  }

  /** A splice leaves every slice apart from it as it was. */
  lemma {:induction false} SpliceElsewhere<T>(m: seq<T>, a: nat, data: seq<T>, b: nat, k: nat)
    requires a + |data| <= |m| && b + k <= |m|
    requires Apart(a, |data|, b, k)
    ensures Splice(m, a, data)[b..b + k] == m[b..b + k]
  {
    SpliceAt(m, a, data);
  }

  /** Writing two adjacent pieces is writing their concatenation. */
  lemma {:induction false} SpliceAdjacent<T>(m: seq<T>, a: nat, x: seq<T>, y: seq<T>)
    requires |x| + |y| == 0 || a + |x| + |y| <= |m|
    ensures Splice(Splice(m, a, x), a + |x|, y) == Splice(m, a, x + y)
    decreases |y|
  {
    if |y| == 0 {
      assert x + y == x;
    } else {
      var k := |y| - 1;
      SpliceAdjacent(m, a, x, y[..k]);
      assert (x + y)[..|x| + k] == x + y[..k];
    }
  }

  /** A splice directly after a slice extends that slice by what is written. */
  lemma {:induction false} SpliceExtends<T>(m: seq<T>, base: nat, k: nat, data: seq<T>)
    requires base + k + |data| <= |m|
    ensures Splice(m, base + k, data)[base..base + k + |data|] == m[base..base + k] + data
  {
    SpliceAt(m, base + k, data);
  }
}
