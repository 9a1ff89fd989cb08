/** The bitmap primitives shared by the bitmap backends: words of 32 bits that
    implement a set of slot numbers. */
module Bitmap {
  import opened Wrappers

  // ----- One word ----------------------------------------------------------

  /** The word `1 << k`. */
  function Mask(k: nat): (r: nat)
    ensures r > 0
  {
    if k == 0 then 1 else 2 * Mask(k - 1)
  }

  function ShiftRight(w: nat, k: nat): nat {
    if k == 0 then w else ShiftRight(w / 2, k - 1)
  }

  predicate BitOf(w: nat, k: nat) {
    ShiftRight(w, k) % 2 == 1
  }

  /** Bitwise or, bit by bit. */
  function Or(x: nat, y: nat): nat {
    if x == 0 && y == 0 then 0 else 2 * Or(x / 2, y / 2) + (if x % 2 == 1 || y % 2 == 1 then 1 else 0)
  }

  /** Bitwise and with the complement of `y`, bit by bit. */
  function AndNot(x: nat, y: nat): nat {
    if x == 0 then 0 else 2 * AndNot(x / 2, y / 2) + (if x % 2 == 1 && y % 2 == 0 then 1 else 0)
  }

  lemma {:induction false} ZeroBits(k: nat)
    ensures !BitOf(0, k)
  {
    if k > 0 {
      ZeroBits(k - 1);
    }
  }

  lemma {:induction false} MaskBit(k: nat, j: nat)
    ensures BitOf(Mask(k), j) <==> k == j
  {
    if k > 0 {
      assert Mask(k) / 2 == Mask(k - 1) && Mask(k) % 2 == 0;
    }
    if j > 0 {
      if k > 0 {
        MaskBit(k - 1, j - 1);
      } else {
        ZeroBits(j - 1);
      }
    }
  }

  lemma {:induction false} OrBit(x: nat, y: nat, j: nat)
    ensures BitOf(Or(x, y), j) <==> BitOf(x, j) || BitOf(y, j)
  {
    if j > 0 {
      assert Or(x, y) / 2 == Or(x / 2, y / 2);
      OrBit(x / 2, y / 2, j - 1);
    }
  }

  lemma {:induction false} AndNotBit(x: nat, y: nat, j: nat)
    ensures BitOf(AndNot(x, y), j) <==> BitOf(x, j) && !BitOf(y, j)
  {
    if j > 0 {
      assert AndNot(x, y) / 2 == AndNot(x / 2, y / 2);
      AndNotBit(x / 2, y / 2, j - 1);
    }
  }

  /** Results of word operations are words. */
  lemma {:induction false} OrFits(x: nat, y: nat, n: nat)
    requires x < Mask(n) && y < Mask(n)
    ensures Or(x, y) < Mask(n) && AndNot(x, y) < Mask(n)
  {
    if n > 0 {
      OrFits(x / 2, y / 2, n - 1);
    }
  }

  lemma {:induction false} MaskGrows(k: nat, n: nat)
    requires k < n
    ensures Mask(k) < Mask(n)
  {
    if k < n - 1 {
      MaskGrows(k, n - 1);
    }
  }

  lemma {:induction false} MaskAdd(a: nat, b: nat)
    ensures Mask(a + b) == Mask(a) * Mask(b)
  {
    if b > 0 {
      MaskAdd(a, b - 1);
    }
  }

  lemma WordSize()
    ensures Mask(32) == TWO_32
  {
    MaskAdd(2, 2);
    MaskAdd(4, 4);
    MaskAdd(8, 8);
    MaskAdd(16, 16);
  }

  /** Setting or clearing one bit of a word leaves the others alone. */
  lemma WordUpdate(w: uint32, k: nat)
    requires k < 32
    ensures Or(w, Mask(k)) < TWO_32 && AndNot(w, Mask(k)) < TWO_32
    ensures forall j: nat :: BitOf(Or(w, Mask(k)), j) <==> j == k || BitOf(w, j)
    ensures forall j: nat :: BitOf(AndNot(w, Mask(k)), j) <==> j != k && BitOf(w, j)
  {
    WordSize();
    MaskGrows(k, 32);
    OrFits(w, Mask(k), 32);
    forall j: nat
      ensures BitOf(Or(w, Mask(k)), j) <==> j == k || BitOf(w, j)
      ensures BitOf(AndNot(w, Mask(k)), j) <==> j != k && BitOf(w, j)
    {
      OrBit(w, Mask(k), j);
      AndNotBit(w, Mask(k), j);
      MaskBit(k, j);
    }
  }

  function SetBit(w: uint32, k: nat): uint32
    requires k < 32
  {
    WordUpdate(w, k);
    Or(w, Mask(k))
  }

  function ClearBit(w: uint32, k: nat): uint32
    requires k < 32
  {
    WordUpdate(w, k);
    AndNot(w, Mask(k))
  }

  // ----- A word array ------------------------------------------------------

  predicate Bit(words: seq<uint32>, bit: nat)
    requires bit < 32 * |words|
  {
    BitOf(words[bit / 32], bit % 32)
  }

  /** The set of slot numbers the words stand for. */
  ghost function SlotsIn(words: seq<uint32>): set<nat> {
    set bit: nat | bit < 32 * |words| && Bit(words, bit)
  }

  lemma WordsUpdate(words: seq<uint32>, bit: nat)
    requires bit < 32 * |words|
    ensures var w := words[bit / 32];
            && SlotsIn(words[bit / 32 := SetBit(w, bit % 32)]) == SlotsIn(words) + {bit}
            && SlotsIn(words[bit / 32 := ClearBit(w, bit % 32)]) == SlotsIn(words) - {bit}
  {
    var i, k := bit / 32, bit % 32;
    var set', clear' := words[i := SetBit(words[i], k)], words[i := ClearBit(words[i], k)];
    WordUpdate(words[i], k);
    forall b: nat | b < 32 * |words|
      ensures Bit(set', b) <==> b == bit || Bit(words, b)
      ensures Bit(clear', b) <==> b != bit && Bit(words, b)
    {
      assert b / 32 == i ==> (b == bit <==> b % 32 == k);
    }
  }

  method SetSlot(ips: array<uint32>, bit: nat)
    requires bit < 32 * ips.Length
    modifies ips
    ensures SlotsIn(ips[..]) == old(SlotsIn(ips[..])) + {bit}
  {
    WordsUpdate(ips[..], bit);
    ghost var words := ips[..][bit / 32 := SetBit(ips[bit / 32], bit % 32)];
    ips[bit / 32] := SetBit(ips[bit / 32], bit % 32);
    assert ips[..] == words;
  }

  method ClearSlot(ips: array<uint32>, bit: nat)
    requires bit < 32 * ips.Length
    modifies ips
    ensures SlotsIn(ips[..]) == old(SlotsIn(ips[..])) - {bit}
  {
    WordsUpdate(ips[..], bit);
    ghost var words := ips[..][bit / 32 := ClearBit(ips[bit / 32], bit % 32)];
    ips[bit / 32] := ClearBit(ips[bit / 32], bit % 32);
    assert ips[..] == words;
  }

  /** Slots beyond the range count as used. */
  method SlotUsed(ips: array<uint32>, bit: nat, rangeSize: nat) returns (r: bool)
    requires rangeSize <= 32 * ips.Length
    ensures r <==> bit >= rangeSize || bit in SlotsIn(ips[..])
  {
    if bit >= rangeSize {
      return true;
    }
    return ShiftRight(ips[bit / 32], bit % 32) % 2 == 1;
  }

  /** The first slot from `i` on that is free, or the range size. */
  function NextFree(used: set<nat>, i: nat, n: nat): (r: nat)
    ensures i <= n ==> i <= r <= n
    ensures r < n ==> r !in used
    ensures forall j | i <= j < r :: j in used
    decreases n - i
  {
    if i >= n || i !in used then i else NextFree(used, i + 1, n)
  }

  /** An address offset that wrapped on the way out wraps back. */
  lemma WrapBack(base: uint32, k: uint32)
    ensures Wrap(Wrap(base + k) - base) == k
  {
    var back: int := 0 - base as int;
    WrapAdd(base + k, back);
  }

  method AddressUsed(ips: array<uint32>, base: uint32, ip: uint32, n: uint32, ghost k: uint32) returns (r: bool)
    requires n <= 32 * ips.Length && ip == Wrap(base + k)
    ensures r <==> k >= n || k in SlotsIn(ips[..])
  {
    WrapBack(base, k);
    r := SlotUsed(ips, Wrap(ip - base), n);
  }

  /** The scan both bitmap backends use: from slot `from` on, look for a free slot of
      the `n` slots whose addresses start at `base`. A candidate that turns out used
      at the very end is dropped, and so is address 0. */
  method ScanSlots(ips: array<uint32>, base: uint32, from: nat, n: uint32) returns (counter: nat, ip: uint32)
    requires n <= 32 * ips.Length
    ensures var free := NextFree(SlotsIn(ips[..]), from, n);
            if free < n then counter == free + 1 && ip == Wrap(base + free) else counter == free && ip == 0
  {
    ghost var used := SlotsIn(ips[..]);
    counter := from;
    var candidate: uint32 := 0;
    while counter < n
      invariant NextFree(used, from, n) == NextFree(used, counter, n)
      invariant from <= counter && (from <= n ==> counter <= n)
      invariant if counter == from then candidate == 0
                else counter <= n && candidate == Wrap(base + counter - 1) && counter - 1 in used
    {
      candidate := Wrap(base + counter);
      var taken := AddressUsed(ips, base, candidate, n, counter);
      counter := counter + 1;
      if !taken {
        break;
      }
    }
    if candidate == 0 {
      return counter, 0;
    }
    var taken := AddressUsed(ips, base, candidate, n, counter - 1);
    ip := if taken then 0 else candidate;
  }

  // ----- Ranges ------------------------------------------------------------

  /** A range of addresses: its slots in use and when they all expire (0: not yet
      decided). */
  datatype RangeState = RangeState(used: set<nat>, expire: uint32)

  class Range {
    const ips: array<uint32>
    var expire: uint32

    constructor (words: nat)
      ensures ips.Length == words && fresh(ips)
    {
      ips := new uint32[words];
      expire := 0;
    }

    ghost function View(): RangeState
      reads this, ips
    {
      RangeState(SlotsIn(ips[..]), expire)
    }

    /** Forgets all slots and the expiry time. */
    method Recycle()
      modifies this, ips
      ensures View() == RangeState({}, 0)
    {
      for i := 0 to ips.Length
        invariant forall j | 0 <= j < i :: ips[j] == 0
      {
        ips[i] := 0;
      }
      expire := 0;
      forall bit: nat | bit < 32 * ips.Length ensures !Bit(ips[..], bit) {
        ZeroBits(bit % 32);
      }
    }
  }
}
