/** The Internet checksum of the client's IP headers: the complement of the one's
    complement sum, section 1 of RFC 1071. */
module Checksum {
  import opened Wrappers

  type word = w: int | 0 <= w < 0x1_0000

  function Sum(words: seq<word>): nat {
    if words == [] then 0 else Sum(words[..|words| - 1]) + words[|words| - 1]
  }

  /** End-around carry until the value fits 16 bits. */
  function Fold(x: nat): (r: word) {
    if x < 0x1_0000 then x else Fold(x % 0x1_0000 + x / 0x1_0000)
  }

  /** The one's complement sum of the words. */
  function OnesSum(words: seq<word>): word {
    Fold(Sum(words))
  }

  lemma CarryKeepsResidue(x: nat)
    ensures (x % 0x1_0000 + x / 0x1_0000) % 0xFFFF == x % 0xFFFF
  {
    var q := x / 0x1_0000;
    assert x == 0xFFFF * q + (x % 0x1_0000 + q);
  }

  /** Folding keeps the residue modulo 65535, and only 0 folds to 0. */
  lemma {:induction false} FoldMeaning(x: nat)
    ensures Fold(x) % 0xFFFF == x % 0xFFFF
    ensures Fold(x) == 0 <==> x == 0
  {
    if x >= 0x1_0000 {
      CarryKeepsResidue(x);
      FoldMeaning(x % 0x1_0000 + x / 0x1_0000);
    }
  }

  lemma {:induction false} SumBound(words: seq<word>)
    ensures Sum(words) <= 0xFFFF * |words|
  {
    if words != [] {
      SumBound(words[..|words| - 1]);
    }
  }

  lemma {:induction false} SumUpdate(words: seq<word>, k: nat, c: word)
    requires k < |words|
    ensures Sum(words[k := c]) == Sum(words[k := 0]) + c
    decreases |words|
  {
    var last := |words| - 1;
    if k < last {
      SumUpdate(words[..last], k, c);
      assert words[k := c][..last] == words[..last][k := c] && words[k := 0][..last] == words[..last][k := 0];
    } else {
      assert words[k := c][..last] == words[..last] == words[k := 0][..last];
    }
  }

  /** Bytes as 16-bit words, low byte first; an odd last byte is a word of its own. */
  function WordsOf(bytes: seq<byte>): (r: seq<word>)
    ensures |r| == (|bytes| + 1) / 2
  {
    if bytes == [] then []
    else if |bytes| == 1 then [bytes[0]]
    else [bytes[0] + 256 * bytes[1] as int] + WordsOf(bytes[2..])
  }

  /** Word `i` is bytes `2i` and `2i + 1`, low byte first. */
  lemma {:induction false} WordAt(bytes: seq<byte>, i: nat)
    requires 2 * i < |bytes|
    ensures WordsOf(bytes)[i] == bytes[2 * i] + if 2 * i + 1 < |bytes| then 256 * bytes[2 * i + 1] as int else 0
  {
    if i > 0 {
      WordAt(bytes[2..], i - 1);
    }
  }

  lemma {:induction false} SumConcat(a: seq<word>, b: seq<word>)
    ensures Sum(a + b) == Sum(a) + Sum(b)
    decreases |b|
  {
    if b == [] {
      assert a + b == a;
    } else {
      var last := |b| - 1;
      assert (a + b)[..|a + b| - 1] == a + b[..last];
      SumConcat(a, b[..last]);
    }
  }

  /** The checksum of a buffer whose length is an `int`. The sum is kept in 32 bits: see
      `ChecksumRightIff`. */
  method IpChecksum(bytes: seq<byte>) returns (r: word)
    requires |bytes| < 0x8000_0000
    ensures r == 0xFFFF - Fold(Wrap(Sum(WordsOf(bytes))))
    ensures r == 0xFFFF - OnesSum(WordsOf(bytes)) <==> Sum(WordsOf(bytes)) < TWO_32
  {
    var sum: nat := AddWords(bytes);
    ChecksumRightIff(WordsOf(bytes));
    while sum / 0x1_0000 > 0
      invariant Fold(sum) == Fold(Wrap(Sum(WordsOf(bytes))))
      decreases sum
    {
      sum := sum % 0x1_0000 + sum / 0x1_0000;
    }
    r := 0xFFFF - sum;
  }

  method AddWords(bytes: seq<byte>) returns (sum: uint32)
    ensures sum == Wrap(Sum(WordsOf(bytes)))
  {
    sum := 0;
    var i := 0;
    assert bytes[0..] == bytes;
    while |bytes| - i > 1
      invariant i <= |bytes| && Wrap(sum + SumFrom(bytes, i)) == Wrap(Sum(WordsOf(bytes)))
    {
      NextWord(bytes, i, sum);
      sum := Wrap(sum + bytes[i] + 256 * bytes[i + 1] as int);
      i := i + 2;
    }
    if i < |bytes| {
      AddByte(bytes[i..]);
      sum := Wrap(sum + bytes[i]);
    }
  }

  function SumFrom(bytes: seq<byte>, i: nat): nat
    requires i <= |bytes|
  {
    Sum(WordsOf(bytes[i..]))
  }

  lemma NextWord(bytes: seq<byte>, i: nat, sum: uint32)
    requires i + 1 < |bytes|
    ensures Wrap(Wrap(sum + bytes[i] + 256 * bytes[i + 1] as int) + SumFrom(bytes, i + 2))
         == Wrap(sum + SumFrom(bytes, i))
  {
    AddWord(bytes[i..]);
    assert bytes[i..][2..] == bytes[i + 2..];
    WrapAdd(sum + bytes[i] + 256 * bytes[i + 1] as int, SumFrom(bytes, i + 2));
  }

  /** What the 32-bit accumulator loses: the carries out of it, each worth 1. */
  lemma WrapResidue(x: nat)
    ensures x % 0xFFFF == (Wrap(x) + x / TWO_32) % 0xFFFF
  {
    var q := x / TWO_32;
    assert x == 0xFFFF * (0x1_0001 * q) + (Wrap(x) + q);
    MultipleMore(0x1_0001 * q, Wrap(x) + q, x);
  }

  /** A carry out of the accumulator is lost for good. */
  lemma CarriesAreLost(x: nat)
    requires TWO_32 <= x < 0xFFFF * TWO_32
    ensures Fold(Wrap(x)) != Fold(x)
  {
    var q, w := x / TWO_32, Wrap(x);
    assert 0 < q < 0xFFFF;
    FoldMeaning(x);
    FoldMeaning(w);
    WrapResidue(x);
    assert q == 0xFFFF * ((w + q) / 0xFFFF - w / 0xFFFF) + ((w + q) % 0xFFFF - w % 0xFFFF);
  }

  /** Exactly: the checksum is the complement of the one's complement sum if and only if
      the plain sum fits the 32-bit accumulator, which up to 65537 words it does. */
  lemma ChecksumRightIff(words: seq<word>)
    requires |words| <= 0x4000_0000
    ensures Fold(Wrap(Sum(words))) == OnesSum(words) <==> Sum(words) < TWO_32
    ensures |words| <= 0x1_0001 ==> Sum(words) < TWO_32
  {
    SumBound(words);
    if Sum(words) >= TWO_32 {
      CarriesAreLost(Sum(words));
    }
  }

  lemma AddByte(bytes: seq<byte>)
    requires |bytes| == 1
    ensures Sum(WordsOf(bytes)) == bytes[0]
  {
    assert WordsOf(bytes) == [bytes[0]] && Sum([bytes[0]]) == bytes[0];
  }

  lemma AddWord(bytes: seq<byte>)
    requires |bytes| > 1
    ensures Sum(WordsOf(bytes)) == bytes[0] + 256 * bytes[1] as int + Sum(WordsOf(bytes[2..]))
  {
    var w := [bytes[0] + 256 * bytes[1] as int];
    assert Sum(w) == w[0];
    SumConcat(w, WordsOf(bytes[2..]));
  }

  lemma MultipleMore(q: int, a: nat, b: nat)
    requires b == 0xFFFF * q + a
    ensures b % 0xFFFF == a % 0xFFFF
  {
    var t := a / 0xFFFF;
    assert b == 0xFFFF * (q + t) + a % 0xFFFF;
  }

  lemma SameResidueAdd(s: nat, r: nat, c: nat)
    requires s % 0xFFFF == r % 0xFFFF
    ensures (s + c) % 0xFFFF == (r + c) % 0xFFFF
  {
    var q := s / 0xFFFF - r / 0xFFFF;
    assert s + c == 0xFFFF * q + (r + c);
    MultipleMore(q, r + c, s + c);
  }

  lemma SmallMultiples(a: nat)
    requires a <= 2 * 0xFFFF
    ensures a % 0xFFFF == 0 <==> a == 0 || a == 0xFFFF || a == 2 * 0xFFFF
  {
  }

  /** Adding `c` to a sum that folds to `r`: when the result folds to 0xFFFF. */
  lemma FoldsToOnes(s: nat, c: word)
    ensures var a := Fold(s) as int + c;
            Fold(s + c) == 0xFFFF <==> s + c > 0 && (a == 0 || a == 0xFFFF || a == 2 * 0xFFFF)
  {
    var r: int := Fold(s);
    FoldMeaning(s);
    FoldMeaning(s + c);
    SameResidueAdd(s, r, c);
    SmallMultiples(r + c);
    SmallMultiples(Fold(s + c));
  }

  /** A header whose checksum word holds the checksum of the header with that word
      zeroed sums to 0xFFFF, so its own checksum is 0. */
  lemma StoredChecksumVerifies(words: seq<word>, k: nat)
    requires k < |words|
    ensures OnesSum(words[k := 0xFFFF - OnesSum(words[k := 0])]) == 0xFFFF
  {
    var c := 0xFFFF - OnesSum(words[k := 0]);
    SumUpdate(words, k, c);
    FoldMeaning(Sum(words[k := 0]));
    FoldsToOnes(Sum(words[k := 0]), c);
  }

  /** What the receiving client checks by recomputing: it accepts exactly the headers
      that sum to 0xFFFF, save those that carry 0xFFFF where 0 belongs. */
  lemma AcceptanceIff(words: seq<word>, k: nat)
    requires k < |words|
    ensures words[k] == 0xFFFF - OnesSum(words[k := 0]) <==>
              OnesSum(words) == 0xFFFF && (words[k] == 0xFFFF ==> Sum(words[k := 0]) == 0)
  {
    assert words[k := words[k]] == words;
    SumUpdate(words, k, words[k]);
    FoldMeaning(Sum(words[k := 0]));
    FoldsToOnes(Sum(words[k := 0]), words[k]);
  }
}
