/**
 DumbAllocator: objects are carved off the end of fixed-size chunks, or get a chunk of their own when they are large;
 nothing is given back one by one.
 */
module DumbAllocator {
  import opened Arithmetic
  import N = IntNarrowing

  /** Contracts below write out what these come to: 0x3FE0 and 0x1FF0. */
  const CHUNK_SIZE := 0x4000 - 0x20
  const HALF_PAGE_SIZE := CHUNK_SIZE / 2

  /** One more than the largest size_t. */
  const WORD := 0x1_0000_0000_0000_0000

  /** Addresses `start`, ..., `start + size - 1`: a chunk, or memory that was handed out. The null pointer is address 0. */
  datatype Range = Range(start: nat, size: nat)

  predicate Apart(a: Range, b: Range) {
    a.size == 0 || b.size == 0 || a.start + a.size <= b.start || b.start + b.size <= a.start
  }

  predicate Inside(a: Range, b: Range) {
    b.start <= a.start && a.start + a.size <= b.start + b.size
  }

  ghost predicate PairwiseApart(rs: seq<Range>) {
    forall i, j :: 0 <= i < j < |rs| ==> Apart(rs[i], rs[j])
  }

  // ----- Alignment -----

  function Masked(a: nat, mask: nat): nat {
    N.Bitwise(N.And, a, mask)
  }

  /** Every bit of an address under `alignment - 1` is clear. */
  predicate Aligned(address: nat, alignment: nat) {
    alignment > 0 ==> Masked(address, alignment - 1) == 0
  }

  /** How much to take below the address `end` for an aligned object, in size_t arithmetic. */
  function RealSize(end: nat, size: nat, alignment: nat): nat {
    (size + Masked((end - size) % WORD, (alignment - 1) % WORD)) % WORD
  }

  lemma {:induction false} MaskCleared(a: nat, mask: nat)
    ensures Masked(a, mask) <= a && Masked(a, mask) <= mask
    ensures Masked(a - Masked(a, mask), mask) == 0
    decreases a + mask
  {
    if a != 0 || mask != 0 {
      MaskCleared(a / 2, mask / 2);
      var low := N.Digit(N.And, a, mask);
      var rest := Masked(a / 2, mask / 2);
      assert Masked(a, mask) == 2 * rest + low;
      var b := a - Masked(a, mask);
      assert b / 2 == a / 2 - rest && b % 2 == a % 2 - low;
    }
  }

  /** For powers of two the mask is the remainder. */
  lemma {:induction false} MaskIsRemainder(a: nat, k: nat)
    ensures Masked(a, Pow2(k) - 1) == a % Pow2(k)
    decreases k
  {
    if k == 0 {
      MaskCleared(a, 0);
    } else {
      var half := Pow2(k - 1);
      MaskIsRemainder(a / 2, k - 1);
      var q := (a / 2) / half;
      assert a / 2 == q * half + (a / 2) % half;
      Regroup(q, half, 2);
      Reassociate(q, 2, half);
      ModUnique(a, 2 * half, q, 2 * ((a / 2) % half) + a % 2);
      MaskHalved(a, half);
    }
  }

  lemma MaskHalved(a: nat, half: nat)
    requires half > 0
    ensures Masked(a, 2 * half - 1) == 2 * Masked(a / 2, half - 1) + a % 2
  {
    assert (2 * half - 1) / 2 == half - 1 && (2 * half - 1) % 2 == 1;
  }

  lemma AlignedExact(address: nat, k: nat)
    ensures Aligned(address, Pow2(k)) <==> address % Pow2(k) == 0
  {
    MaskIsRemainder(address, k);
  }

  lemma NoWrap(x: nat)
    requires x < WORD
    ensures x % WORD == x
  {
  }

  /** What RealSize is where it does not wrap. */
  lemma RealSizeIs(end: nat, size: nat, alignment: nat)
    requires 0 < alignment <= WORD && size <= end < WORD && size + Masked(end - size, alignment - 1) < WORD
    ensures RealSize(end, size, alignment) == size + Masked(end - size, alignment - 1)
  {
    NoWrap(alignment - 1);
    NoWrap(end - size);
    NoWrap(size + Masked(end - size, alignment - 1));
  }

  lemma RealSizeFits(end: nat, size: nat, alignment: nat)
    requires 0 < alignment && size + alignment - 1 <= 0x3FE0
    ensures size <= RealSize(end, size, alignment) <= size + alignment - 1
  {
    MaskCleared((end - size) % WORD, alignment - 1);
    NoWrap(alignment - 1);
    NoWrap(size + Masked((end - size) % WORD, alignment - 1));
  }

  /** The place below `end` is aligned. */
  lemma PlaceAligned(end: nat, size: nat, alignment: nat)
    requires 0 < alignment && size + alignment - 1 <= 0x3FE0 && RealSize(end, size, alignment) <= end < WORD
    ensures Aligned(end - RealSize(end, size, alignment), alignment)
  {
    RealSizeFits(end, size, alignment);
    MaskCleared(end - size, alignment - 1);
    RealSizeIs(end, size, alignment);
  }

  lemma LongestGap(size: nat, alignment: nat, gap: nat)
    requires 0 < alignment == gap + 1 && size + gap < WORD
    ensures RealSize(size + gap, size, alignment) == size + gap
  {
    N.AndSelf(gap);
    var end := size + gap;
    assert end - size == gap == alignment - 1;
    RealSizeIs(end, size, alignment);
  }

  /** A fresh chunk has room, wherever it is, exactly for requests of at most this size. */
  lemma FitsExact(size: nat, k: nat)
    requires size < 0x1FF0 && Pow2(k) < WORD / 2
    ensures (forall end :: 0x3FE0 < end < WORD ==> RealSize(end, size, Pow2(k)) <= 0x3FE0)
       <==> size + Pow2(k) - 1 <= 0x3FE0
  {
    var alignment := Pow2(k);
    if size + alignment - 1 <= 0x3FE0 {
      forall end | 0x3FE0 < end < WORD ensures RealSize(end, size, alignment) <= 0x3FE0 {
        RealSizeFits(end, size, alignment);
      }
    } else {
      LongestGap(size, alignment, alignment - 1);
    }
  }

  /** The place RealSize gives is the highest aligned one. */
  lemma HighestPlace(end: nat, size: nat, k: nat, other: nat)
    requires size <= end < WORD && size + Pow2(k) - 1 <= 0x3FE0
    requires other + size <= end && other % Pow2(k) == 0
    ensures RealSize(end, size, Pow2(k)) <= end && other <= end - RealSize(end, size, Pow2(k))
  {
    MaskCleared(end - size, Pow2(k) - 1);
    RealSizeIs(end, size, Pow2(k));
    MaskIsRemainder(end - size, k);
    MultipleBelow(end - size, other, Pow2(k));
  }

  lemma MultipleBelow(a: nat, multiple: nat, n: nat)
    requires n > 0 && multiple % n == 0 && multiple <= a
    ensures multiple <= a - a % n
  {
    var q, p := a / n, multiple / n;
    assert a == q * n + a % n && multiple == p * n;
    Distribute(q, 1, n);
    MulCancel(p, q + 1, n);
    MulMonotone(p, q, n);
  }

  // ----- Aligning large objects -----

  function AlignedUp(p: nat, alignment: nat): nat
    requires alignment > 0
  {
    MaskCleared(p + alignment - 1, alignment - 1);
    p + alignment - 1 - Masked(p + alignment - 1, alignment - 1)
  }

  /** std::align, which moves `p` up to an aligned place if `size` bytes fit there in `space` bytes, and leaves it otherwise. */
  function Align(alignment: nat, size: nat, p: nat, space: nat): nat
    requires alignment > 0
  {
    if AlignedUp(p, alignment) - p + size <= space then AlignedUp(p, alignment) else p
  }

  /** With size and space in the order std::align takes them, the result is aligned and in bounds. */
  lemma AlignIntended(alignment: nat, size: nat, p: nat)
    requires alignment > 0
    ensures var q := Align(alignment, size, p, size + alignment - 1);
            Aligned(q, alignment) && p <= q && q + size <= p + size + alignment - 1
  {
    MaskCleared(p + alignment - 1, alignment - 1);
  }

  /** As allocateLarge passes them, the pointer stays; that is the intended result exactly when it was aligned. */
  lemma AlignExact(size: nat, k: nat, p: nat)
    ensures var required := size + Pow2(k) - 1;
      && Align(Pow2(k), required, p, size) == p
      && (Align(Pow2(k), required, p, size) == Align(Pow2(k), size, p, required) <==> p % Pow2(k) == 0)
  {
    MaskIsRemainder(p + Pow2(k) - 1, k);
    NotMoved(Pow2(k), size, p);
    AlignIntended(Pow2(k), size, p);
    UpUnchanged(p, Pow2(k));
  }

  lemma NotMoved(alignment: nat, size: nat, p: nat)
    requires alignment > 0
    ensures Align(alignment, size + alignment - 1, p, size) == p
  {
    MaskCleared(p + alignment - 1, alignment - 1);
  }

  lemma UpUnchanged(p: nat, n: nat)
    requires n > 0
    ensures (p + n - 1) % n == n - 1 <==> p % n == 0
  {
    var q, r := p / n, p % n;
    assert p == q * n + r;
    if r == 0 {
      ModUnique(p + n - 1, n, q, n - 1);
    } else {
      Distribute(q, 1, n);
      ModUnique(p + n - 1, n, q + 1, r - 1);
    }
  }

  // ----- What is handed out -----

  /** The part of chunk `i` that can have been handed out: all of it, or what is above the offset in the last one. */
  function Used(pool: seq<Range>, offset: nat, i: nat): Range
    requires i < |pool| && (i == |pool| - 1 ==> offset <= pool[i].size)
  {
    if i == |pool| - 1 then Range(pool[i].start + offset, pool[i].size - offset) else pool[i]
  }

  ghost predicate PoolValid(pool: seq<Range>, offset: nat) {
    && PairwiseApart(pool)
    && (forall i :: 0 <= i < |pool| ==> pool[i].start + pool[i].size < WORD && (pool[i].size > 0 ==> pool[i].start > 0))
    && offset <= if pool == [] then 0 else pool[|pool| - 1].size
  }

  ghost predicate Within(pool: seq<Range>, offset: nat, r: Range, i: nat)
    requires PoolValid(pool, offset)
  {
    i < |pool| && Inside(r, Used(pool, offset, i))
  }

  ghost predicate Owned(pool: seq<Range>, offset: nat, r: Range)
    requires PoolValid(pool, offset)
  {
    r.size == 0 || exists i: nat :: Within(pool, offset, r, i)
  }

  ghost predicate Consistent(pool: seq<Range>, offset: nat, taken: seq<Range>) {
    && PoolValid(pool, offset)
    && PairwiseApart(taken)
    && forall r :: r in taken ==> Owned(pool, offset, r)
  }

  /** Memory that is not in use. */
  ghost predicate Available(pool: seq<Range>, base: nat, size: nat) {
    0 < base && base + size < WORD && forall i :: 0 <= i < |pool| ==> Apart(pool[i], Range(base, size))
  }

  /** A chunk added at the end, of which nothing is used. */
  lemma AddLast(pool: seq<Range>, offset: nat, taken: seq<Range>, base: nat, size: nat)
    requires Consistent(pool, offset, taken) && Available(pool, base, size)
    ensures Consistent(pool + [Range(base, size)], size, taken)
  {
    var pool' := pool + [Range(base, size)];
    forall r | r in taken ensures Owned(pool', size, r) {
      assert Owned(pool, offset, r);
      if r.size > 0 {
        var i: nat :| Within(pool, offset, r, i);
        assert Within(pool', size, r, i);
      }
    }
  }

  lemma ApartInside(a: Range, b: Range, c: Range, d: Range)
    requires Inside(a, c) && Inside(b, d) && Apart(c, d)
    ensures Apart(a, b)
  {
  }

  /** A chunk added at the front, with a range in it. */
  lemma AddFirst(pool: seq<Range>, offset: nat, taken: seq<Range>, base: nat, size: nat, r: Range)
    requires Consistent(pool, offset, taken) && Available(pool, base, size) && Inside(r, Range(base, size))
    ensures Consistent([Range(base, size)] + pool, offset, taken + [r])
  {
    var chunk := Range(base, size);
    var pool', taken' := [chunk] + pool, taken + [r];
    forall t | t in taken ensures Owned(pool', offset, t) && Apart(t, r) {
      assert Owned(pool, offset, t);
      if t.size > 0 {
        var i: nat :| Within(pool, offset, t, i);
        assert Within(pool', offset, t, i + 1);
        ApartInside(t, r, pool[i], chunk);
      }
    }
    assert Within(pool', offset, r, 0);
  }

  /** A range taken off the last chunk, just below the offset. */
  lemma Carve(pool: seq<Range>, offset: nat, taken: seq<Range>, offset': nat, size: nat)
    requires Consistent(pool, offset, taken) && pool != [] && offset' + size <= offset
    ensures Consistent(pool, offset', taken + [Range(pool[|pool| - 1].start + offset', size)])
  {
    var last := |pool| - 1;
    var r := Range(pool[last].start + offset', size);
    forall t | t in taken ensures Owned(pool, offset', t) && Apart(t, r) {
      assert Owned(pool, offset, t);
      if t.size > 0 {
        var i: nat :| Within(pool, offset, t, i);
        assert Within(pool, offset', t, i);
        assert i != last ==> Apart(pool[i], pool[last]);
      }
    }
    assert Within(pool, offset', r, last);
  }

  // ----- The allocator -----

  datatype Request = Request(size: nat, alignment: nat)

  /** The size of the chunk that may be needed. */
  function Needed(request: Request): nat {
    if request.size < 0x1FF0 || request.alignment == 0 then 0x3FE0 else request.size + request.alignment - 1
  }

  /** Requests that get null: large ones whose chunk would need more than a size_t, and those without an alignment. */
  predicate Refused(request: Request) {
    request.size >= 0x1FF0 && (request.alignment == 0 || request.size + request.alignment - 1 >= WORD)
  }

  /** What the assertions in allocateSmall demand. */
  predicate Acceptable(request: Request) {
    request.size < 0x1FF0 ==> 0 < request.alignment && request.size + request.alignment - 1 <= 0x3FE0
  }

  ghost predicate Served(request: Request, address: nat) {
    && (Refused(request) ==> address == 0)
    && (address == 0 ==> Refused(request) || request.size == 0)
    && (request.size < 0x1FF0 ==> Aligned(address, request.alignment))
  }

  function Granted(address: nat, size: nat): Range {
    if address == 0 then Range(0, 0) else Range(address, size)
  }

  class Allocator {
    var pool: seq<Range>
    var offset: nat
    ghost var taken: seq<Range>

    ghost predicate Valid()
      reads this
    {
      Consistent(pool, offset, taken)
    }

    constructor ()
      ensures Valid() && taken == [] && pool == [Range(0, 0)]
    {
      pool, offset, taken := [Range(0, 0)], 0, [];
    }

    /** DumbAllocator::clear. Everything that was handed out is gone. */
    method Clear()
      modifies this
      ensures Valid() && taken == [] && pool == []
    {
      pool, offset, taken := [], 0, [];
    }

    /**
     allocateSmall; `base` is what `new char[]` returns if it is called. The last chunk is used while it has room, and the
     object then ends at most an alignment below the offset.
     */
    method AllocateSmall(size: nat, alignment: nat, base: nat)
      returns (address: nat)
      requires Valid() && pool != []
      requires 0 < alignment && size + alignment - 1 <= 0x3FE0 && Available(pool, base, 0x3FE0)
      modifies this
      ensures Valid() && taken == old(taken) + [Range(address, size)] && Aligned(address, alignment) && (size > 0 ==> address > 0)
      ensures var last := old(pool)[|old(pool)| - 1];
        var end := last.start + old(offset);
        if old(offset) < RealSize(end, size, alignment)
        then pool == old(pool) + [Range(base, 0x3FE0)] && address == base + 0x3FE0 - RealSize(base + 0x3FE0, size, alignment)
        else pool == old(pool) && address == end - RealSize(end, size, alignment)
    {
      var endOffset := pool[|pool| - 1].start + offset;
      var realSize := RealSize(endOffset, size, alignment);
      RealSizeFits(endOffset, size, alignment);
      if offset < realSize {
        AddLast(pool, offset, taken, base, CHUNK_SIZE);
        pool := pool + [Range(base, CHUNK_SIZE)];
        offset := CHUNK_SIZE;
        endOffset := base + offset;
        realSize := RealSize(endOffset, size, alignment);
        RealSizeFits(endOffset, size, alignment);
        assert realSize <= offset;
      }
      PlaceAligned(endOffset, size, alignment);
      address := Lower(realSize, size);
    }

    /** Lowers the offset, which hands out what is between. */
    method Lower(realSize: nat, ghost size: nat)
      returns (address: nat)
      requires Valid() && pool != [] && size <= realSize <= offset
      modifies this`offset, this`taken
      ensures Valid() && offset == old(offset) - realSize && taken == old(taken) + [Range(address, size)]
      ensures address == pool[|pool| - 1].start + offset
      ensures size > 0 ==> address > 0
    {
      Carve(pool, offset, taken, offset - realSize, size);
      offset := offset - realSize;
      address := pool[|pool| - 1].start + offset;
      taken := taken + [Range(address, size)];
    }

    /** allocateLarge. The object starts where its chunk does, whatever alignment was asked for. */
    method AllocateLarge(size: nat, alignment: nat, base: nat)
      returns (address: nat)
      requires Valid() && (size > 0 && alignment > 0 && size + alignment - 1 < WORD ==> Available(pool, base, size + alignment - 1))
      modifies this
      ensures Valid() && taken == old(taken) + [Granted(address, size)] && offset == old(offset)
      ensures address == if size == 0 || alignment == 0 || size + alignment - 1 >= WORD then 0 else base
      ensures address == 0 <==> size == 0 || alignment == 0 || size + alignment - 1 >= WORD
      ensures pool == if address == 0 then old(pool) else [Range(base, size + alignment - 1)] + old(pool)
    {
      if size == 0 || alignment == 0 || size + alignment - 1 >= WORD {
        taken := taken + [Range(0, 0)];
        return 0;
      }
      var requiredSize := size + alignment - 1;
      address := Align(alignment, requiredSize, base, size);
      NotMoved(alignment, size, base);
      AddFirst(pool, offset, taken, base, requiredSize, Range(address, size));
      pool := [Range(base, requiredSize)] + pool;
      taken := taken + [Range(address, size)];
    }

    /** The choice that allocate and allocateDynamic make. */
    method Allocate(request: Request, base: nat)
      returns (address: nat)
      requires Valid() && pool != [] && Acceptable(request)
      requires !Refused(request) ==> Available(pool, base, Needed(request))
      modifies this
      ensures Valid() && taken == old(taken) + [Granted(address, request.size)]
      ensures Served(request, address)
      ensures pool in {old(pool), old(pool) + [Range(base, Needed(request))], [Range(base, Needed(request))] + old(pool)}
      ensures Refused(request) ==> pool == old(pool)
    {
      if request.size < HALF_PAGE_SIZE {
        address := AllocateSmall(request.size, request.alignment, base);
      } else {
        address := AllocateLarge(request.size, request.alignment, base);
      }
    }

    method Step(requests: seq<Request>, bases: seq<nat>, i: nat)
      returns (address: nat)
      requires Valid() && pool != [] && i < |requests| == |bases| && Acceptable(requests[i]) && Supplied(pool, requests, bases, i)
      modifies this
      ensures Valid() && pool != [] && Supplied(pool, requests, bases, i + 1)
      ensures taken == old(taken) + [Granted(address, requests[i].size)] && Served(requests[i], address)
    {
      assert Supply(pool, requests, bases, i);
      ghost var before := pool;
      address := Allocate(requests[i], bases[i]);
      SupplyLeft(before, pool, requests, bases, i);
    }

    /** Any sequence of requests gets memory in bounds, apart from all that was handed out, and aligned if it is small. */
    method Run(requests: seq<Request>, bases: seq<nat>)
      returns (addresses: seq<nat>)
      requires Valid() && pool != [] && |bases| == |requests|
      requires forall i :: 0 <= i < |requests| ==> Acceptable(requests[i])
      requires Supplied(pool, requests, bases, 0)
      modifies this
      ensures Valid() && |addresses| == |requests|
      ensures taken == old(taken) + AllGranted(requests, addresses)
      ensures forall i :: 0 <= i < |requests| ==> Served(requests[i], addresses[i])
    {
      addresses := [];
      while |addresses| < |requests|
        invariant |addresses| <= |requests| && Valid() && pool != []
        invariant taken == old(taken) + AllGranted(requests[..|addresses|], addresses)
        invariant forall i :: 0 <= i < |addresses| ==> Served(requests[i], addresses[i])
        invariant Supplied(pool, requests, bases, |addresses|)
      {
        var address := Step(requests, bases, |addresses|);
        GrantedStep(requests, addresses, address);
        addresses := addresses + [address];
      }
      assert requests[..|requests|] == requests;
    }
  }

  ghost function AllGranted(requests: seq<Request>, addresses: seq<nat>): seq<Range>
    requires |requests| == |addresses|
  {
    seq(|requests|, i requires 0 <= i < |requests| => Granted(addresses[i], requests[i].size))
  }

  lemma GrantedStep(requests: seq<Request>, addresses: seq<nat>, address: nat)
    requires |addresses| < |requests|
    ensures AllGranted(requests[..|addresses| + 1], addresses + [address])
         == AllGranted(requests[..|addresses|], addresses) + [Granted(address, requests[|addresses|].size)]
  {
  }

  /** What `new char[]` returns for each request that may call it: memory apart from all chunks there are and will be. */
  ghost predicate Supplied(pool: seq<Range>, requests: seq<Request>, bases: seq<nat>, from: nat)
    requires |requests| == |bases|
  {
    && (forall i: nat :: from <= i < |requests| ==> Supply(pool, requests, bases, i))
    && forall i, j :: from <= i < j < |requests| && !Refused(requests[i]) && !Refused(requests[j]) ==>
      Apart(Range(bases[i], Needed(requests[i])), Range(bases[j], Needed(requests[j])))
  }

  ghost predicate Supply(pool: seq<Range>, requests: seq<Request>, bases: seq<nat>, i: nat)
    requires i < |requests| == |bases|
  {
    !Refused(requests[i]) ==> Available(pool, bases[i], Needed(requests[i]))
  }

  lemma SupplyLeft(pool: seq<Range>, pool': seq<Range>, requests: seq<Request>, bases: seq<nat>, from: nat)
    requires from < |requests| == |bases| && Supplied(pool, requests, bases, from)
    requires var chunk := Range(bases[from], Needed(requests[from])); pool' in {pool, pool + [chunk], [chunk] + pool}
    requires Refused(requests[from]) ==> pool' == pool
    ensures Supplied(pool', requests, bases, from + 1)
  {
    forall i: nat | from < i < |requests| ensures Supply(pool', requests, bases, i) {
      assert Supply(pool, requests, bases, i);
    }
  }
}
