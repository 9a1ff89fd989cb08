/** Shared value types: an optional result and 32-bit unsigned arithmetic. */
module Wrappers {

  datatype Option<+T> = None | Some(value: T)

  /** The number of values of a 32-bit unsigned integer. */
  const TWO_32 := 0x1_0000_0000

  type uint32 = x: int | 0 <= x < TWO_32

  type byte = b: int | 0 <= b < 256

  /** Reduction of an integer to 32 bits, as unsigned C arithmetic does. */
  function Wrap(x: int): (r: uint32)
    ensures 0 <= x < TWO_32 ==> r == x
  {
    x % TWO_32
  }

  /** Wrapping early or late makes no difference to a sum. */
  lemma WrapAdd(a: int, b: int)
    ensures Wrap(Wrap(a) + b) == Wrap(a + b)
  {
    var q := a / TWO_32;
    assert a == q * TWO_32 + Wrap(a);
    var r := (Wrap(a) + b) / TWO_32;
    assert a + b == (q + r) * TWO_32 + Wrap(Wrap(a) + b);
  }

  lemma WrapSameAdd(a: int, b: int, c: int)
    requires Wrap(a) == Wrap(b)
    ensures Wrap(a + c) == Wrap(b + c)
  {
    WrapAdd(a, c);
    WrapAdd(b, c);
  }

  lemma ModOnce(x: nat, n: nat)
    requires n > 0
    ensures x < 2 * n ==> x % n == if x < n then x else x - n
  {
  }

  /** The invariant of a structure `owner` is stated for all `u` with
      `Opened(owner, u)`. A proof about the structure opens it by naming such a `u`;
      its users reason with what the structure stores alone. */
  ghost predicate Opened(owner: object?, u: int) {
    true
  }

  function Min(a: int, b: int): int {
    if a <= b then a else b
  }

  /** The place `d` after place `c` on a ring of `n` places. */
  function Ahead(c: nat, d: nat, n: nat): (r: nat)
    requires c < n && d <= n
    ensures r < n
  {
    if c + d < n then c + d else c + d - n
  }

  // ----- Sizes of maps -----------------------------------------------------

  lemma MinusSize<K, V>(m: map<K, V>, ks: set<K>)
    requires ks <= m.Keys
    ensures (m - ks).Keys == m.Keys - ks && |m - ks| == |m| - |ks|
  {
    assert |m - ks| == |(m - ks).Keys| && |m| == |m.Keys|;
    assert m.Keys == (m - ks).Keys + ks;
  }

  lemma UpdateSize<K, V>(m: map<K, V>, k: K, v: V)
    ensures |m[k := v]| == |m| + if k in m then 0 else 1
  {
    assert m[k := v].Keys == m.Keys + {k};
    assert |m[k := v]| == |m[k := v].Keys| && |m| == |m.Keys|;
  }

  lemma SubmapSize<K, V>(a: map<K, V>, b: map<K, V>)
    requires forall k | k in a :: k in b && a[k] == b[k]
    ensures |a| <= |b|
    ensures |a| == |b| ==> a == b
  {
    assert b.Keys == a.Keys + (b.Keys - a.Keys);
    assert |a| == |a.Keys| && |b| == |b.Keys|;
    if |a| == |b| {
      assert b.Keys - a.Keys == {};
      assert a.Keys == b.Keys;
    }
  }
}
