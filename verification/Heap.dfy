/** The Circle heap: blocks are cut off the front of an arena and, when freed, kept
    on free lists by bucket size. */
module Heap {
  import opened Wrappers

  /** `modulus` is the number of values of a size_t, `align` the block alignment; the
      block header fills one alignment unit. Bucket sizes are positive and ascend. */
  datatype Params = Params(modulus: nat, align: nat, buckets: seq<nat>) {
    predicate Valid() {
      && 0 < align && 2 * align <= modulus
      && (forall i | 0 <= i < |buckets| :: 0 < buckets[i] < TWO_32 && 2 * align + buckets[i] < modulus)
      && (forall i, j | 0 <= i < j < |buckets| :: buckets[i] < buckets[j])
    }

    /** Bytes taken by a block of `size` bytes, in size_t arithmetic. */
    function Extent(size: nat): nat
      requires align > 0 && modulus > 0
    {
      var total := (align + size + align - 1) % modulus;
      total - total % align
    }

    /** Header and data of a block of `size` bytes are addressable. */
    predicate Sane(size: nat) {
      align + size <= modulus
    }

    /** The first bucket that holds `size` bytes, or the number of buckets. */
    function BucketFor(size: nat, i: nat): (r: nat)
      requires i <= |buckets|
      ensures i <= r <= |buckets|
      ensures r < |buckets| ==> size <= buckets[r]
      ensures forall j | i <= j < r :: buckets[j] < size
      decreases |buckets| - i
    {
      if i == |buckets| || size <= buckets[i] then i else BucketFor(size, i + 1)
    }

    /** What an allocation returns: the first listed block of the request's bucket, else
        the end of the arena's used part if the block fits below `top`, else 0. */
    function Outcome(free: seq<seq<nat>>, next: nat, top: int, size: nat): nat
      requires align > 0 && modulus > 0 && |free| == |buckets|
    {
      var k, extent := BucketFor(size, 0), Extent(Rounded(size));
      if k < |buckets| && free[k] != [] then free[k][0] + align
      else if extent == 0 || next + extent > top then 0
      else next + align
    }

    /** The size a block requested with `size` bytes gets. */
    function Rounded(size: nat): (r: nat)
      ensures r >= size
    {
      var k := BucketFor(size, 0);
      if k < |buckets| then buckets[k] else size
    }
  }

  lemma RemainderIsUnique(x: nat, a: nat, q: int, r: nat)
    requires a > 0 && x == q * a + r && r < a
    ensures x % a == r
  {
    var d := x / a - q;
    assert d * a == r - x % a;
    ProductSize(d, a);
  }

  lemma ProductSize(d: int, a: nat)
    ensures d >= 1 ==> d * a >= a
    ensures d <= -1 ==> d * a + a <= 0
  {
  }

  /** Rounding down to the alignment. */
  lemma RoundDown(x: nat, a: nat)
    requires a > 0
    ensures (x - x % a) % a == 0 && x - a < x - x % a <= x
  {
    RemainderIsUnique(x - x % a, a, x / a, 0);
  }

  lemma AlignedSum(x: nat, y: nat, a: nat)
    requires a > 0 && x % a == 0 && y % a == 0
    ensures (x + y) % a == 0
  {
    RemainderIsUnique(x + y, a, x / a + y / a, 0);
  }

  /** Exactly when the size computation goes wrong: a block is empty, so that the
      allocator refuses it, or has room for header and data, if and only if the two
      together are addressable. Otherwise it has room for the header alone. */
  lemma ExtentFitsIff(ps: Params, size: nat)
    requires ps.Valid() && size < ps.modulus
    ensures ps.Extent(size) % ps.align == 0
    ensures ps.Extent(size) == 0 || ps.Extent(size) >= ps.align + size <==> ps.Sane(size)
    ensures !ps.Sane(size) ==> ps.Extent(size) == ps.align
  {
    var sum := ps.align + size + ps.align - 1;
    var total := sum % ps.modulus;
    RoundDown(total, ps.align);
    ModOnce(sum, ps.modulus);
    ModOnce(total, ps.align);
  }

  /** And no block takes more than the rounding needs. */
  lemma ExtentIsTight(ps: Params, size: nat)
    requires ps.Valid() && size < ps.modulus
    ensures ps.Extent(size) < 2 * ps.align + size
  {
    ModOnce(2 * ps.align + size - 1, ps.modulus);
  }

  // ----- Blocks ------------------------------------------------------------

  datatype Magic = Allocated | Freed

  /** A block: the bytes it really has, the size its 32-bit header field tells, and its
      state. The allocator itself looks at the header only. */
  datatype Block = Block(size: nat, header: uint32, magic: Magic)

  /** Blocks by header address. */
  type Blocks = map<nat, Block>

  function NewBlock(size: nat): Block {
    Block(size, Wrap(size), Allocated)
  }

  /** Exactly the blocks below 4 GiB have a truthful header. */
  lemma HeaderTruthfulIff(bl: Block)
    requires bl.header == Wrap(bl.size)
    ensures bl.header == bl.size <==> bl.size < TWO_32
    ensures bl.header <= bl.size
  {
  }

  /** Blocks are aligned, lie with all their bytes between `base` and `next` and do not
      overlap; headers tell the low 32 bits of the size. */
  ghost predicate Laid(ps: Params, blocks: Blocks, base: nat, next: nat)
    requires ps.Valid()
  {
    && (forall b | b in blocks :: b % ps.align == 0 && base <= b && b + ps.align + blocks[b].size <= next)
    && (forall b, c | b in blocks && c in blocks && b < c :: b + ps.align + blocks[b].size <= c)
    && (forall b | b in blocks :: blocks[b].header == Wrap(blocks[b].size))
  }

  /** Every free list holds freed blocks whose header tells its bucket's size, each once. */
  ghost predicate Listed(ps: Params, blocks: Blocks, free: seq<seq<nat>>)
    requires ps.Valid()
  {
    && |free| == |ps.buckets|
    && (forall k, i | 0 <= k < |free| && 0 <= i < |free[k]| ::
          free[k][i] in blocks && blocks[free[k][i]].header == ps.buckets[k] && blocks[free[k][i]].magic == Freed)
    && (forall k, i, j | 0 <= k < |free| && 0 <= i < j < |free[k]| :: free[k][i] != free[k][j])
  }

  /** Both, for use by the methods: see `Opened`. */
  ghost predicate Orderly(ps: Params, blocks: Blocks, free: seq<seq<nat>>, base: nat, next: nat)
    requires ps.Valid()
  {
    forall u {:trigger Opened(null, u)} | Opened(null, u) :: Laid(ps, blocks, base, next) && Listed(ps, blocks, free)
  }

  lemma OrderlyFacts(ps: Params, blocks: Blocks, free: seq<seq<nat>>, base: nat, next: nat)
    requires ps.Valid() && Orderly(ps, blocks, free, base, next)
    ensures Laid(ps, blocks, base, next) && Listed(ps, blocks, free)
  {
    assert Opened(null, 0);
  }

  /** A block is on at most one list. */
  lemma OnOneList(ps: Params, blocks: Blocks, free: seq<seq<nat>>, k: nat, i: nat, l: nat, j: nat)
    requires ps.Valid() && Listed(ps, blocks, free)
    requires k < |free| && i < |free[k]| && l < |free| && j < |free[l]| && free[k][i] == free[l][j]
    ensures k == l && i == j
  {
    assert ps.buckets[k] == ps.buckets[l];
  }

  /** `n` bytes from `p` in one memory are those from `q` in another. */
  ghost predicate SameBytes(m: seq<byte>, p: nat, m': seq<byte>, q: nat, n: nat) {
    p + n <= |m| && q + n <= |m'| && m[p..p + n] == m'[q..q + n]
  }

  /** The bytes of all blocks but `except` are the same in both memories. */
  ghost predicate Untouched(ps: Params, blocks: Blocks, m: seq<byte>, m': seq<byte>, except: int) {
    forall c: nat | c in blocks && c != except ::
      SameBytes(m, c + ps.align, m', c + ps.align, blocks[c].size)
  }

  /** All live blocks but `except` stay, with their bytes. */
  ghost predicate Undisturbed(ps: Params, blocks: Blocks, m: seq<byte>, blocks': Blocks, m': seq<byte>, except: int) {
    forall b: nat | Live(blocks, b) && b != except ::
      b in blocks' && blocks'[b] == blocks[b] && SameBytes(m, b + ps.align, m', b + ps.align, blocks[b].size)
  }

  lemma SameMemory(ps: Params, blocks: Blocks, free: seq<seq<nat>>, base: nat, next: nat,
                   blocks': Blocks, m: seq<byte>, except: int)
    requires ps.Valid() && Orderly(ps, blocks, free, base, next) && next <= |m|
    requires forall b: nat | Live(blocks, b) && b != except :: b in blocks' && blocks'[b] == blocks[b]
    ensures Undisturbed(ps, blocks, m, blocks', m, except)
  {
    OrderlyFacts(ps, blocks, free, base, next);
  }

  lemma MoveDisturbsNone(ps: Params, before: Blocks, held: Blocks, after: Blocks, m: seq<byte>, m': seq<byte>,
                         from: nat, to: nat)
    requires Undisturbed(ps, before, m, held, m, from) && Untouched(ps, held, m, m', to)
    requires !Live(before, to) && from in held && after == held[from := held[from].(magic := Freed)]
    ensures Undisturbed(ps, before, m, after, m', from)
  {
  }

  /** Memory after copying `n` bytes. */
  function Copied(m: seq<byte>, to: nat, from: nat, n: nat): (r: seq<byte>)
    requires from + n <= |m| && to + n <= |m|
    ensures |r| == |m|
  {
    m[..to] + m[from..from + n] + m[to + n..]
  }

  /** Copying `n` bytes into block `to` leaves the bytes of every other block alone. */
  lemma CopyKeeps(ps: Params, blocks: Blocks, free: seq<seq<nat>>, base: nat, next: nat,
                  m: seq<byte>, to: nat, from: nat, n: nat)
    requires ps.Valid() && Orderly(ps, blocks, free, base, next) && next <= |m|
    requires to in blocks && n <= blocks[to].size && from in blocks && n <= blocks[from].size
    ensures to + ps.align + n <= |m| && from + ps.align + n <= |m|
    ensures var m' := Copied(m, to + ps.align, from + ps.align, n);
            SameBytes(m, from + ps.align, m', to + ps.align, n) && Untouched(ps, blocks, m, m', to)
  {
    OrderlyFacts(ps, blocks, free, base, next);
    var m' := Copied(m, to + ps.align, from + ps.align, n);
    forall c: nat | c in blocks && c != to ensures SameBytes(m, c + ps.align, m', c + ps.align, blocks[c].size) {
      var d, size := c + ps.align, blocks[c].size;
      assert d + size <= to || to + ps.align + blocks[to].size <= c;
      assert forall x | d <= x < d + size :: m'[x] == m[x];
    }
  }

  /** Marking a live block free keeps the heap in order, and so does listing it under
      the size its header tells. */
  lemma FreeKeepsOrder(ps: Params, blocks: Blocks, free: seq<seq<nat>>, base: nat, next: nat, b: nat)
    requires ps.Valid() && Orderly(ps, blocks, free, base, next) && Live(blocks, b)
    ensures |free| == |ps.buckets|
    ensures var blocks' := blocks[b := blocks[b].(magic := Freed)];
            && Orderly(ps, blocks', free, base, next)
            && forall k | 0 <= k < |free| && ps.buckets[k] == blocks[b].header ::
                 Orderly(ps, blocks', free[k := [b] + free[k]], base, next)
  {
    OrderlyFacts(ps, blocks, free, base, next);
    var blocks' := blocks[b := blocks[b].(magic := Freed)];
    assert Laid(ps, blocks', base, next);
    assert forall l, j | 0 <= l < |free| && 0 <= j < |free[l]| :: free[l][j] != b;
    assert Listed(ps, blocks', free);
    forall k | 0 <= k < |free| && ps.buckets[k] == blocks[b].header
      ensures Listed(ps, blocks', free[k := [b] + free[k]])
    {
    }
  }

  predicate Live(blocks: Blocks, b: nat) {
    b in blocks && blocks[b].magic == Allocated
  }

  /** What is known of a block on the list of blocks of `size` bytes. */
  ghost predicate FiledAs(bl: Block, size: nat) {
    bl.magic == Freed && size <= bl.size && (bl.size == size <==> bl.size < TWO_32)
  }

  /** Block `b` was given back. */
  ghost predicate FreedIn(blocks: Blocks, blocks': Blocks, b: nat) {
    b in blocks && b in blocks' && blocks'[b] == blocks[b].(magic := Freed)
  }

  class HeapAllocator {
    const params: Params
    const base: nat
    const limit: nat
    var next: nat
    var reserve: nat
    var blocks: Blocks
    var free: seq<seq<nat>>
    /** Memory up to the end of the arena, by address. */
    var mem: seq<byte>

    ghost predicate Valid()
      reads this`next, this`reserve, this`blocks, this`free, this`mem
    {
      && params.Valid() && |mem| == limit && reserve <= limit
      && 0 < base <= next <= limit < params.modulus
      && next % params.align == 0
      && |free| == |params.buckets|
      && Orderly(params, blocks, free, base, next)
    }

    constructor (params: Params, base: nat, size: nat, reserve: nat, mem: seq<byte>)
      requires params.Valid() && 0 < base && base % params.align == 0
      requires reserve <= base + size == |mem| < params.modulus
      ensures Valid() && this.params == params && this.base == base && limit == base + size
      ensures next == base && this.reserve == reserve && this.mem == mem
      ensures blocks == map[] && forall k | 0 <= k < |free| :: free[k] == []
    {
      this.params, this.base, limit, next := params, base, base + size, base;
      this.reserve, blocks, free, this.mem := reserve, map[], seq(|params.buckets|, _ => []), mem;
    }

    /** What the invariant means: live and freed blocks alike are aligned, lie inside
        the arena and are disjoint; and a listed block is a freed one, on no other list
        nor twice on this one, of at least its list's size, and of exactly that size if
        and only if it is smaller than 4 GiB. */
    lemma BlocksAreDisjoint()
      requires Valid()
      ensures forall b | b in blocks ::
                base <= b && b % params.align == 0 && b + params.align + blocks[b].size <= limit
      ensures forall b, c | b in blocks && c in blocks && b < c :: b + params.align + blocks[b].size <= c
      ensures forall k, i | 0 <= k < |free| && 0 <= i < |free[k]| ::
                free[k][i] in blocks && FiledAs(blocks[free[k][i]], params.buckets[k])
      ensures forall k, i, l, j | 0 <= k < |free| && 0 <= i < |free[k]| && 0 <= l < |free| && 0 <= j < |free[l]|
                                  && free[k][i] == free[l][j] :: k == l && i == j
    {
      OrderlyFacts(params, blocks, free, base, next);
      forall k, i | 0 <= k < |free| && 0 <= i < |free[k]|
        ensures free[k][i] in blocks && FiledAs(blocks[free[k][i]], params.buckets[k])
      {
        HeaderTruthfulIff(blocks[free[k][i]]);
      }
      forall k, i, l, j | 0 <= k < |free| && 0 <= i < |free[k]| && 0 <= l < |free| && 0 <= j < |free[l]|
                          && free[k][i] == free[l][j] ensures k == l && i == j
      {
        OnOneList(params, blocks, free, k, i, l, j);
      }
    }

    /** Returns the data address of a block that was not live before, aligned and large
        enough, or 0: a block of the request's bucket if one was freed, else a new one.
        No other block changes. A request whose header and data are not addressable
        together may be given a block without any data bytes. */
    method Allocate(size: nat) returns (p: nat)
      requires Valid() && size < params.modulus
      modifies this`next, this`reserve, this`blocks, this`free
      ensures p == 0 || params.Sane(size) ==> Valid()
      ensures p != 0 && !params.Sane(size) ==> p == next
      ensures p == 0 ==> blocks == old(blocks)
      ensures p != 0 ==> p >= params.align && p % params.align == 0 && !Live(old(blocks), p - params.align)
      ensures p != 0 ==> p - params.align in blocks
      ensures p != 0 && params.Sane(size) ==>
                && blocks[p - params.align].size >= size && blocks[p - params.align].magic == Allocated
                && blocks == old(blocks)[p - params.align := blocks[p - params.align]]
      ensures p == params.Outcome(old(free), old(next), limit - old(reserve), size)
      ensures var k := params.BucketFor(size, 0);
              var want := if k < |params.buckets| then params.buckets[k] else size;
              if k < |params.buckets| && old(free[k]) != [] then
                && p == old(free[k][0]) + params.align
                && free == old(free[k := free[k][1..]]) && next == old(next) && reserve == old(reserve)
                && p - params.align in old(blocks) && old(blocks)[p - params.align].header == want
                && blocks[p - params.align] == old(blocks)[p - params.align].(magic := Allocated)
              else
                && free == old(free)
                && (p == 0 <==> params.Extent(want) == 0 || old(next) + params.Extent(want) > limit - old(reserve))
                && if p == 0 then next == old(next) && reserve == 0
                   else
                     && p == old(next) + params.align && next == old(next) + params.Extent(want)
                     && reserve == old(reserve) && blocks[p - params.align] == Block(want, Wrap(want), Allocated)
    {
      var k := FindBucket(size);
      if k < |params.buckets| && free[k] != [] {
        p := Reuse(k);
      } else {
        p := Cut(if k < |params.buckets| then params.buckets[k] else size);
      }
    }

    method FindBucket(size: nat) returns (k: nat)
      ensures k == params.BucketFor(size, 0)
    {
      k := 0;
      while k < |params.buckets| && size > params.buckets[k]
        invariant k <= |params.buckets| && params.BucketFor(size, 0) == params.BucketFor(size, k)
      {
        k := k + 1;
      }
    }

    /** Takes the first block of a free list. */
    method Reuse(k: nat) returns (p: nat)
      requires Valid() && k < |free| && free[k] != []
      modifies this`blocks, this`free
      ensures Valid() && p == old(free[k][0]) + params.align && p % params.align == 0
      ensures free == old(free[k := free[k][1..]])
      ensures !Live(old(blocks), p - params.align)
      ensures p - params.align in old(blocks) && old(blocks)[p - params.align].size >= params.buckets[k]
      ensures old(blocks)[p - params.align].header == params.buckets[k]
      ensures blocks == old(blocks)[p - params.align := old(blocks)[p - params.align].(magic := Allocated)]
    {
      OrderlyFacts(params, blocks, free, base, next);
      var b := free[k][0];
      assert blocks[b].header == params.buckets[k] && blocks[b].magic == Freed;
      HeaderTruthfulIff(blocks[b]);
      forall l, j | 0 <= l < |free| && 0 <= j < |free[l]| && free[l][j] == b ensures l == k && j == 0 {
        OnOneList(params, blocks, free, k, 0, l, j);
      }
      free := free[k := free[k][1..]];
      blocks := blocks[b := blocks[b].(magic := Allocated)];
      AlignedSum(b, params.align, params.align);
      p := b + params.align;
    }

    /** Cuts a new block off the front of the arena. When memory runs out the reserve
        is given up. */
    method Cut(size: nat) returns (p: nat)
      requires Valid() && size < params.modulus
      modifies this`next, this`reserve, this`blocks
      ensures p == 0 || params.Sane(size) ==> Valid()
      ensures p != 0 && !params.Sane(size) ==> p == next
      ensures p == 0 <==> params.Extent(size) == 0 || old(next) + params.Extent(size) > limit - old(reserve)
      ensures p == 0 ==> blocks == old(blocks) && next == old(next) && reserve == 0
      ensures p != 0 ==> p == old(next) + params.align && p % params.align == 0 && p - params.align !in old(blocks)
                         && next == old(next) + params.Extent(size) && reserve == old(reserve)
      ensures p != 0 ==> blocks == old(blocks)[p - params.align := NewBlock(size)]
    {
      OrderlyFacts(params, blocks, free, base, next);
      var b := next;
      ExtentFitsIff(params, size);
      var after := next + params.Extent(size);
      if after <= next || after > limit - reserve {
        reserve := 0;
        return 0;
      }
      AlignedSum(next, params.Extent(size), params.align);
      AlignedSum(next, params.align, params.align);
      next := after;
      blocks := blocks[b := NewBlock(size)];
      p := b + params.align;
    }

    /** Gives a live block back: it goes to the front of the list of the bucket its
        header tells, or is lost if no bucket has that size. */
    method Free(p: nat)
      requires Valid() && (p == 0 || (p >= params.align && Live(blocks, p - params.align)))
      modifies this`blocks, this`free
      ensures Valid()
      ensures p == 0 ==> blocks == old(blocks) && free == old(free)
      ensures p != 0 ==> var b := p - params.align; blocks == old(blocks)[b := old(blocks)[b].(magic := Freed)]
      ensures p != 0 ==> var b := p - params.align;
                         forall k | 0 <= k < |free| ::
                           free[k] == if params.buckets[k] == old(blocks)[b].header then [b] + old(free)[k]
                                      else old(free)[k]
    {
      if p == 0 {
        return;
      }
      var b := p - params.align;
      FreeKeepsOrder(params, blocks, free, base, next, b);
      blocks := blocks[b := blocks[b].(magic := Freed)];
      var k := 0;
      while k < |params.buckets|
        invariant k <= |params.buckets| && forall l | 0 <= l < k :: params.buckets[l] != blocks[b].header
      {
        if blocks[b].header == params.buckets[k] {
          free := free[k := [b] + free[k]];
          return;
        }
        k := k + 1;
      }
    }

    /** Gives a block at least `size` bytes, moving it if its header tells fewer. As many
        bytes come along as the header tells, which is all that are asked for if and only
        if `Keeps` (see `ContentsKeptIff`); those of all other live blocks stay. */
    method ReAllocate(p: nat, size: nat) returns (r: nat)
      requires Valid() && (p == 0 || (p >= params.align && Live(blocks, p - params.align)))
      requires size < params.modulus && params.Sane(size)
      modifies this`next, this`reserve, this`blocks, this`free, this`mem
      ensures Valid()
      ensures r != 0 ==> r >= params.align && Live(blocks, r - params.align) && blocks[r - params.align].size >= size
      ensures p == 0 || old(blocks)[p - params.align].header < size ==>
                r == params.Outcome(old(free), old(next), limit - old(reserve), size)
      ensures p == 0 ==> r == 0 || !Live(old(blocks), r - params.align)
      ensures p != 0 && size == 0 ==> r == 0 && FreedIn(old(blocks), blocks, p - params.align)
      ensures p != 0 && size != 0 && old(blocks)[p - params.align].header >= size ==>
                r == p && blocks == old(blocks) && mem == old(mem)
      ensures p != 0 && size != 0 && r == 0 ==> blocks == old(blocks) && mem == old(mem)
      ensures p != 0 && r != 0 && r != p ==>
                && !Live(old(blocks), r - params.align) && FreedIn(old(blocks), blocks, p - params.align)
                && MovedBytes(old(mem), p, mem, r, old(blocks)[p - params.align].header)
      ensures p != 0 && r != 0 && Keeps(old(blocks)[p - params.align], size) ==>
                SameBytes(old(mem), p, mem, r, Min(old(blocks)[p - params.align].size, size))
      ensures Undisturbed(params, old(blocks), old(mem), blocks, mem, p - params.align)
    {
      ghost var before := blocks;
      if p == 0 {
        r := AllocateNew(size);
        return;
      }
      HeaderIsLow(p - params.align);
      if size == 0 {
        Free(p);
        SameMemory(params, before, old(free), base, old(next), blocks, mem, p - params.align);
        return 0;
      }
      if blocks[p - params.align].header >= size {
        SameMemory(params, before, old(free), base, old(next), blocks, mem, p - params.align);
        return p;
      }
      r := Grow(p, size);
    }

    method AllocateNew(size: nat) returns (r: nat)
      requires Valid() && size < params.modulus && params.Sane(size)
      modifies this`next, this`reserve, this`blocks, this`free
      ensures Valid()
      ensures r != 0 ==> r >= params.align && Live(blocks, r - params.align) && blocks[r - params.align].size >= size
      ensures r == params.Outcome(old(free), old(next), limit - old(reserve), size)
      ensures r == 0 || !Live(old(blocks), r - params.align)
      ensures Undisturbed(params, old(blocks), mem, blocks, mem, 0 - params.align)
    {
      r := Allocate(size);
      SameMemory(params, old(blocks), old(free), base, old(next), blocks, mem, 0 - params.align);
    }

    lemma HeaderIsLow(b: nat)
      requires Valid() && b in blocks
      ensures blocks[b].header == Wrap(blocks[b].size) <= blocks[b].size
      ensures b + params.align + blocks[b].size <= |mem|
    {
      OrderlyFacts(params, blocks, free, base, next);
      HeaderTruthfulIff(blocks[b]);
    }

    method Grow(p: nat, size: nat) returns (r: nat)
      requires Valid() && p >= params.align && Live(blocks, p - params.align)
      requires blocks[p - params.align].header < size < params.modulus && params.Sane(size)
      modifies this`next, this`reserve, this`blocks, this`free, this`mem
      ensures Valid()
      ensures r != 0 ==> r >= params.align && Live(blocks, r - params.align) && blocks[r - params.align].size >= size
      ensures r == params.Outcome(old(free), old(next), limit - old(reserve), size)
      ensures r == 0 ==> blocks == old(blocks) && mem == old(mem)
      ensures r != 0 ==> r != p && !Live(old(blocks), r - params.align)
                         && FreedIn(old(blocks), blocks, p - params.align)
      ensures r != 0 ==> MovedBytes(old(mem), p, mem, r, old(blocks)[p - params.align].header)
      ensures Undisturbed(params, old(blocks), old(mem), blocks, mem, p - params.align)
    {
      r := Allocate(size);
      SameMemory(params, old(blocks), old(free), base, old(next), blocks, mem, p - params.align);
      if r != 0 {
        ghost var held := blocks;
        Move(p, r);
        MoveDisturbsNone(params, old(blocks), held, blocks, old(mem), mem, p - params.align, r - params.align);
      }
    }

    /** Copies the bytes of a live block to a larger one and frees it. */
    method Move(p: nat, r: nat)
      requires Valid() && p >= params.align && r >= params.align && p != r
      requires Live(blocks, p - params.align) && Live(blocks, r - params.align)
      requires blocks[p - params.align].header <= blocks[r - params.align].size
      modifies this`blocks, this`free, this`mem
      ensures Valid()
      ensures var b := p - params.align; blocks == old(blocks)[b := old(blocks)[b].(magic := Freed)]
      ensures MovedBytes(old(mem), p, mem, r, old(blocks)[p - params.align].header)
      ensures Untouched(params, old(blocks), old(mem), mem, r - params.align)
    {
      var to, n := r - params.align, blocks[p - params.align].header;
      HeaderIsLow(p - params.align);
      CopyKeeps(params, blocks, free, base, next, mem, to, p - params.align, n);
      mem := Copied(mem, r, p, n);
      Free(p);
    }
  }

  // ----- Freed memory is used again ----------------------------------------

  /** Requests of `size` bytes belong to bucket `k`, the first that is large enough. */
  predicate InBucket(ps: Params, k: nat, size: nat) {
    k < |ps.buckets| && size <= ps.buckets[k] && (k > 0 ==> ps.buckets[k - 1] < size)
  }

  lemma BucketIs(ps: Params, k: nat, size: nat)
    requires ps.Valid() && InBucket(ps, k, size)
    ensures ps.BucketFor(size, 0) == k
  {
  }

  /** Giving a block back and asking for one of its bucket returns the same block and leaves
      the whole heap as it was. */
  method FreeThenAllocate(heap: HeapAllocator, p: nat, size: nat, ghost k: nat) returns (q: nat)
    requires heap.Valid() && size < heap.params.modulus && InBucket(heap.params, k, size)
    requires p >= heap.params.align && Live(heap.blocks, p - heap.params.align)
    requires heap.blocks[p - heap.params.align].header == heap.params.buckets[k]
    modifies heap
    ensures heap.Valid() && q == p && heap.blocks == old(heap.blocks) && heap.free == old(heap.free)
    ensures heap.next == old(heap.next) && heap.reserve == old(heap.reserve) && heap.mem == old(heap.mem)
  {
    BucketIs(heap.params, k, size);
    heap.Free(p);
    q := heap.Allocate(size);
  }

  /** Freed memory is used again: allocating, freeing and allocating for requests of one
      bucket returns the same address and takes one block off the arena at most. */
  method FreedBlockIsReused(heap: HeapAllocator, a: nat, b: nat, ghost k: nat) returns (p: nat, q: nat)
    requires heap.Valid() && a < heap.params.modulus && b < heap.params.modulus
    requires InBucket(heap.params, k, a) && InBucket(heap.params, k, b)
    modifies heap
    ensures heap.Valid() && q == p
    ensures heap.next < old(heap.next) + 2 * heap.params.align + heap.params.buckets[k]
    ensures p != 0 ==> p >= heap.params.align && Live(heap.blocks, p - heap.params.align)
                       && heap.blocks[p - heap.params.align].header == heap.params.buckets[k]
  {
    BucketIs(heap.params, k, a);
    ExtentIsTight(heap.params, heap.params.buckets[k]);
    p := heap.Allocate(a);
    if p == 0 {
      return p, 0;
    }
    q := FreeThenAllocate(heap, p, b, k);
  }

  // ----- Blocks of 4 GiB and more ------------------------------------------

  /** Memory `m'` is `m` with `n` bytes copied from `p` to `q`. */
  ghost predicate MovedBytes(m: seq<byte>, p: nat, m': seq<byte>, q: nat, n: nat) {
    p + n <= |m| && q + n <= |m| && m' == Copied(m, q, p, n)
  }

  /** Giving the block `size` bytes keeps what it holds. */
  predicate Keeps(bl: Block, size: nat) {
    bl.size < TWO_32 || bl.header >= size
  }

  /** Whatever the memory holds, copying `copied` bytes from `p` to `q` brings along `n`. */
  ghost predicate BringsAlong(limit: nat, p: nat, q: nat, copied: nat, n: nat) {
    forall m: seq<byte>, m': seq<byte> | |m| == limit && MovedBytes(m, p, m', q, copied) :: SameBytes(m, p, m', q, n)
  }

  /** A block that is moved to one of at least `size` bytes takes along, whatever the
      memory holds, all the bytes it has and that are asked for, if and only if it is
      smaller than 4 GiB. */
  lemma ContentsKeptIff(ps: Params, blocks: Blocks, base: nat, next: nat, limit: nat, from: nat, to: nat, size: nat)
    requires ps.Valid() && Laid(ps, blocks, base, next) && next <= limit
    requires from in blocks && to in blocks && from != to && blocks[from].header < size <= blocks[to].size
    ensures var bl := blocks[from];
            BringsAlong(limit, from + ps.align, to + ps.align, bl.header, Min(bl.size, size)) <==> Keeps(bl, size)
  {
    var bl := blocks[from];
    HeaderTruthfulIff(bl);
    BringsAlongIff(limit, from + ps.align, to + ps.align, bl.header, Min(bl.size, size));
  }

  /** Copying brings along what it copies, and not more in every memory. */
  lemma BringsAlongIff(limit: nat, p: nat, q: nat, copied: nat, n: nat)
    requires p + n <= limit && q + n <= limit && p != q && copied <= n
    ensures BringsAlong(limit, p, q, copied, n) <==> copied == n
  {
    if copied < n {
      var m: seq<byte> := seq(limit, i => if i == p + copied then 1 else 0);
      var m' := Copied(m, q, p, copied);
      assert MovedBytes(m, p, m', q, copied);
      ByteLost(m, p, m', q, copied, n);
    }
  }

  lemma ByteLost(m: seq<byte>, p: nat, m': seq<byte>, q: nat, copied: nat, n: nat)
    requires copied < n && p + n <= |m| && q + n <= |m| && MovedBytes(m, p, m', q, copied)
    requires m[p + copied] != m[q + copied]
    ensures !SameBytes(m, p, m', q, n)
  {
    assert m[p..p + n][copied] == m[p + copied];
    assert m'[q..q + n][copied] == m'[q + copied] == m[q + copied];
  }

  const HUGE: nat := 0x1_0000_0040

  /** The parameters of a 64-bit machine. */
  const MACHINE_64: Params :=
    Params(0x1_0000_0000_0000_0000, 64, [0x40, 0x400, 0x1000, 0x4000, 0x10000, 0x40000, 0x80000])

  /** An arena of 7 GiB, as on a machine with 8 GiB of memory. */
  const HIGH_START := 0x4000_0000
  const HIGH_END := 0x2_0000_0000

  lemma HugeSizes()
    ensures MACHINE_64.Valid() && MACHINE_64.BucketFor(HUGE, 0) == 7 && MACHINE_64.BucketFor(0x80, 0) == 1
    ensures MACHINE_64.Extent(HUGE) == HUGE + 64 && MACHINE_64.Extent(0x400) == 0x440
  {
  }

  lemma HugeOutcomes(free: seq<seq<nat>>)
    requires |free| == 7 && forall k | 0 <= k < 7 :: free[k] == []
    ensures MACHINE_64.Valid() && MACHINE_64.Rounded(HUGE) == HUGE && MACHINE_64.Extent(HUGE) == HUGE + 64
    ensures MACHINE_64.Outcome(free, HIGH_START, HIGH_END, HUGE) == HIGH_START + 64
    ensures MACHINE_64.Outcome(free, HIGH_START + HUGE + 64, HIGH_END, 0x80) == HIGH_START + HUGE + 128
  {
    HugeSizes();
  }

  /** A heap with one block of 4 GiB and 64 bytes. */
  method AllocateHuge(mem: seq<byte>) returns (heap: HeapAllocator, p: nat)
    requires |mem| == HIGH_END
    ensures fresh(heap) && heap.Valid() && heap.params == MACHINE_64 && heap.mem == mem
    ensures p == HIGH_START + 64 && heap.blocks == map[HIGH_START := Block(HUGE, 0x40, Allocated)]
    ensures heap.next == HIGH_START + HUGE + 64 && heap.reserve == 0 && heap.limit == HIGH_END
    ensures forall k | 0 <= k < |heap.free| :: heap.free[k] == []
  {
    heap := new HeapAllocator(MACHINE_64, HIGH_START, HIGH_END - HIGH_START, 0, mem);
    HugeOutcomes(heap.free);
    p := heap.Allocate(HUGE);
  }

  /** Given back, it ends up on the list of blocks of 64 bytes. */
  method HugeBlockIsMisfiled(mem: seq<byte>) returns (heap: HeapAllocator, p: nat)
    requires |mem| == HIGH_END
    ensures heap.Valid() && heap.params == MACHINE_64 && MACHINE_64.buckets[0] == 0x40
    ensures p >= 64 && p - 64 in heap.blocks && heap.blocks[p - 64].size == HUGE && heap.free[0] == [p - 64]
  {
    heap, p := AllocateHuge(mem);
    heap.Free(p);
  }

  /** Asked to hold 128 bytes, it is moved with its first 64 bytes alone. */
  method HugeBlockLosesContents(mem: seq<byte>) returns (heap: HeapAllocator, p: nat, r: nat)
    requires |mem| == HIGH_END && mem[HIGH_START + 64 + 0x40] != mem[HIGH_START + HUGE + 128 + 0x40]
    ensures heap.Valid() && p != 0 && r != 0 && r != p
    ensures !SameBytes(mem, p, heap.mem, r, 0x80)
  {
    heap, p := AllocateHuge(mem);
    HugeOutcomes(heap.free);
    r := heap.ReAllocate(p, 0x80);
    ByteLost(mem, p, heap.mem, r, 0x40, 0x80);
  }
}
