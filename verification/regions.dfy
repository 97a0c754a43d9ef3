/**
  The three region operations of the library: tag a region, tag and zero
  it, tag it while copying data into it.

  A region is given by a tagged pointer and a size in bytes. Each
  operation walks a cursor from the pointer up to `end = ptr + size`,
  issuing one MTE store per step, and stops when the cursor reaches `end`.
  The comparison `ptr < end` is done on whole pointer values; the model
  requires that the region does not run past the top of the 2^56-byte
  address space, so that the cursor never carries into the tag.
 */
module Regions {
  import opened TagCodec
  import opened TagMemory

  /** The tag-writing instructions an operation issues, in order. */
  datatype TagStore = STG | ST2G | STZG | STZ2G | STGP

  /** `[ptr, ptr + size)` stays below the top of the address space, so that
      neither `ptr + size` nor any cursor in between changes the top byte. */
  predicate WithinAddressSpace(ptr: Pointer, size: nat)
  {
    Address(ptr) + size < TAG_UNIT
  }

  /** Untagged address `a` lies in the region. */
  predicate InBytes(ptr: Pointer, size: nat, a: int)
  {
    Address(ptr) <= a < Address(ptr) + size
  }

  /** Granule `g` overlaps the region. */
  predicate InGranules(ptr: Pointer, size: nat, g: int)
  {
    GranuleOf(Address(ptr)) <= g < GranuleOf(Address(ptr) + size)
  }

  /** `n` copies of one instruction. */
  function Repeat(s: TagStore, n: nat): (r: seq<TagStore>)
    ensures |r| == n && forall i :: 0 <= i < n ==> r[i] == s
  {
    seq(n, _ => s)
  }

  /** The instructions memoryTag and memoryTagAndZero issue for a region of
      `size` bytes: one single-granule store when `size` is an odd number
      of granules, then one double-granule store per remaining 32 bytes. */
  function DoubleGranulePlan(size: nat, single: TagStore, double: TagStore): seq<TagStore>
  {
    (if size % DGRANULE_SIZE != 0 then [single] else []) + Repeat(double, size / DGRANULE_SIZE)
  }

  /** A granule-aligned size is an odd number of granules followed by
      whole double granules, or whole double granules only. */
  lemma SplitIntoDoubleGranules(size: nat)
    requires GranuleAligned(size)
    ensures size == GRANULE_SIZE * (if size % DGRANULE_SIZE != 0 then 1 else 0)
                    + DGRANULE_SIZE * (size / DGRANULE_SIZE)
  {
    var k := size / GRANULE_SIZE;
    assert size == GRANULE_SIZE * k;
    var h := k / 2;
    if k % 2 == 0 {
      assert size == DGRANULE_SIZE * h;
    } else {
      assert size == DGRANULE_SIZE * h + GRANULE_SIZE;
    }
  }

  /** Appending one more copy. */
  lemma RepeatSnoc(s: TagStore, n: nat)
    ensures Repeat(s, n) + [s] == Repeat(s, n + 1)
  {
  }

  /** Granules [lo, hi) of `r` carry `tag`; every other granule is as in `m`. */
  ghost predicate TagsWritten(m: Memory, r: Memory, lo: int, hi: int, tag: Tag)
  {
    && (forall g :: lo <= g < hi ==> r.tags(g) == tag)
    && (forall g {:trigger r.tags(g)} :: !(lo <= g < hi) ==> r.tags(g) == m.tags(g))
  }

  /** Bytes [lo, hi) of `r` are zero; every other byte is as in `m`. */
  ghost predicate BytesZeroed(m: Memory, r: Memory, lo: int, hi: int)
  {
    && (forall a :: lo <= a < hi ==> r.bytes(a) == 0)
    && (forall a {:trigger r.bytes(a)} :: !(lo <= a < hi) ==> r.bytes(a) == m.bytes(a))
  }

  /** Bytes [lo, hi) of `r` are the bytes of `m` from address `from` on;
      every other byte is as in `m`. */
  ghost predicate BytesCopied(m: Memory, r: Memory, lo: int, hi: int, from: int)
  {
    && (forall a {:trigger r.bytes(a)} :: lo <= a < hi ==> r.bytes(a) == m.bytes(a - lo + from))
    && (forall a {:trigger r.bytes(a)} :: !(lo <= a < hi) ==> r.bytes(a) == m.bytes(a))
  }

  /** Tagging the `n` granules just above a tagged run extends the run. */
  lemma TagStep(m: Memory, r: Memory, r': Memory, lo: int, hi: int, n: nat, tag: Tag)
    requires lo <= hi && TagsWritten(m, r, lo, hi, tag)
    requires forall g :: hi <= g < hi + n ==> r'.tags(g) == tag
    requires forall g {:trigger r'.tags(g)} :: !(hi <= g < hi + n) ==> r'.tags(g) == r.tags(g)
    ensures TagsWritten(m, r', lo, hi + n, tag)
  {
  }

  /** Zeroing the `n` bytes just above a zeroed run extends the run. */
  lemma ZeroStep(m: Memory, r: Memory, r': Memory, lo: int, hi: int, n: nat)
    requires lo <= hi && BytesZeroed(m, r, lo, hi)
    requires forall a :: hi <= a < hi + n ==> r'.bytes(a) == 0
    requires forall a {:trigger r'.bytes(a)} :: !(hi <= a < hi + n) ==> r'.bytes(a) == r.bytes(a)
    ensures BytesZeroed(m, r', lo, hi + n)
  {
  }

  /** Copying the granule that follows a copied run, from source bytes that
      the run has not overwritten, extends the run. */
  lemma CopyStep(m: Memory, r: Memory, r': Memory, lo: int, hi: int, from: int)
    requires lo <= hi && BytesCopied(m, r, lo, hi, from)
    requires var at := hi - lo + from; at + GRANULE_SIZE <= lo || hi <= at
    requires forall a {:trigger r'.bytes(a)} :: hi <= a < hi + GRANULE_SIZE ==> r'.bytes(a) == r.bytes(a - lo + from)
    requires forall a {:trigger r'.bytes(a)} :: !(hi <= a < hi + GRANULE_SIZE) ==> r'.bytes(a) == r.bytes(a)
    ensures BytesCopied(m, r', lo, hi + GRANULE_SIZE, from)
  {
    forall a | lo <= a < hi + GRANULE_SIZE
      ensures r'.bytes(a) == m.bytes(a - lo + from)
    {
      if a < hi {
        assert r'.bytes(a) == r.bytes(a);
      } else {
        var x := a - lo + from;
        assert r'.bytes(a) == r.bytes(x);
        assert !(lo <= x < hi);
      }
    }
  }

  /** A tagged run of granules that is exactly the region's granules. */
  lemma RegionTagged(m: Memory, r: Memory, ptr: Pointer, size: nat, g0: int, gEnd: int)
    requires Address(ptr) == GRANULE_SIZE * g0 && Address(ptr) + size == GRANULE_SIZE * gEnd
    requires TagsWritten(m, r, g0, gEnd, PointerGetTag(ptr))
    ensures forall g :: InGranules(ptr, size, g) ==> r.tags(g) == PointerGetTag(ptr)
    ensures forall g {:trigger r.tags(g)} :: !InGranules(ptr, size, g) ==> r.tags(g) == m.tags(g)
  {
    GranuleOfMultiple(g0);
    GranuleOfMultiple(gEnd);
  }

  /** A zeroed run of bytes that is exactly the region's bytes. */
  lemma RegionZeroed(m: Memory, r: Memory, ptr: Pointer, size: nat, g0: int, gEnd: int)
    requires Address(ptr) == GRANULE_SIZE * g0 && Address(ptr) + size == GRANULE_SIZE * gEnd
    requires BytesZeroed(m, r, GRANULE_SIZE * g0, GRANULE_SIZE * gEnd)
    ensures forall a :: InBytes(ptr, size, a) ==> r.bytes(a) == 0
    ensures forall a {:trigger r.bytes(a)} :: !InBytes(ptr, size, a) ==> r.bytes(a) == m.bytes(a)
  {
  }

  /** A source byte outside a granule-aligned destination lies in a granule
      outside the destination's granules. */
  lemma SourceGranuleOutside(dst: Pointer, size: nat, a: int)
    requires GranuleAligned(Address(dst)) && !InBytes(dst, size, a)
    ensures !InGranules(dst, size, GranuleOf(a))
  {
  }

  /** One STG of memoryTag: the granule at `p` joins the run [g0, gp) of
      granules carrying `p`'s tag. */
  method TagGranule(ghost m: Memory, r: Memory, p: Pointer, ghost g0: int, ghost gp: int, ghost tag: Tag)
    returns (r': Memory)
    requires g0 <= gp && Address(p) == GRANULE_SIZE * gp && PointerGetTag(p) == tag
    requires TagsWritten(m, r, g0, gp, tag)
    ensures TagsWritten(m, r', g0, gp + 1, tag) && r'.bytes == r.bytes
  {
    GranuleOfMultiple(gp);
    r' := Stg(r, p, p);
    TagStep(m, r, r', g0, gp, 1, tag);
  }

  /** One ST2G of memoryTag: the two granules from `p` join the run. */
  method TagDoubleGranule(ghost m: Memory, r: Memory, p: Pointer, ghost g0: int, ghost gp: int, ghost tag: Tag)
    returns (r': Memory)
    requires g0 <= gp && Address(p) == GRANULE_SIZE * gp && PointerGetTag(p) == tag
    requires TagsWritten(m, r, g0, gp, tag)
    ensures TagsWritten(m, r', g0, gp + 2, tag) && r'.bytes == r.bytes
  {
    GranuleOfMultiple(gp);
    assert GranuleOf(Address(p) + DGRANULE_SIZE) == gp + 2;
    r' := St2g(r, p, p);
    TagStep(m, r, r', g0, gp, 2, tag);
  }

  /** One STZG of memoryTagAndZero: the granule at `p` joins the run of
      granules carrying `p`'s tag and its bytes the run of zero bytes. */
  method ZeroGranule(ghost m: Memory, r: Memory, p: Pointer, ghost g0: int, ghost gp: int, ghost tag: Tag)
    returns (r': Memory)
    requires g0 <= gp && Address(p) == GRANULE_SIZE * gp && PointerGetTag(p) == tag
    requires TagsWritten(m, r, g0, gp, tag) && BytesZeroed(m, r, GRANULE_SIZE * g0, GRANULE_SIZE * gp)
    ensures TagsWritten(m, r', g0, gp + 1, tag)
    ensures BytesZeroed(m, r', GRANULE_SIZE * g0, GRANULE_SIZE * (gp + 1))
  {
    GranuleOfMultiple(gp);
    r' := Stzg(r, p, p);
    TagStep(m, r, r', g0, gp, 1, tag);
    ZeroStep(m, r, r', GRANULE_SIZE * g0, GRANULE_SIZE * gp, GRANULE_SIZE);
  }

  /** One STZ2G of memoryTagAndZero: the same for the two granules from `p`. */
  method ZeroDoubleGranule(ghost m: Memory, r: Memory, p: Pointer, ghost g0: int, ghost gp: int, ghost tag: Tag)
    returns (r': Memory)
    requires g0 <= gp && Address(p) == GRANULE_SIZE * gp && PointerGetTag(p) == tag
    requires TagsWritten(m, r, g0, gp, tag) && BytesZeroed(m, r, GRANULE_SIZE * g0, GRANULE_SIZE * gp)
    ensures TagsWritten(m, r', g0, gp + 2, tag)
    ensures BytesZeroed(m, r', GRANULE_SIZE * g0, GRANULE_SIZE * (gp + 2))
  {
    GranuleOfMultiple(gp);
    assert GranuleOf(Address(p) + DGRANULE_SIZE) == gp + 2;
    r' := Stz2g(r, p, p);
    TagStep(m, r, r', g0, gp, 2, tag);
    ZeroStep(m, r, r', GRANULE_SIZE * g0, GRANULE_SIZE * gp, DGRANULE_SIZE);
  }

  /** The ST2G loop of memoryTag (or, with `zero`, the STZ2G loop of
      memoryTagAndZero): the cursor `p` walks up to `end`, `n` double
      granules away, extending the run of granules tagged `tag` (and of
      zeroed bytes) by two granules per store. */
  method DoubleGranuleLoop(ghost m: Memory, r: Memory, p: Pointer, end: Pointer, zero: bool,
                           ghost n: nat, ghost g0: int, ghost gp: int, ghost tag: Tag)
    returns (r': Memory, plan: seq<TagStore>)
    requires g0 <= gp && Address(p) == GRANULE_SIZE * gp && PointerGetTag(p) == tag
    requires end == p + DGRANULE_SIZE * n && Address(p) + DGRANULE_SIZE * n < TAG_UNIT
    requires TagsWritten(m, r, g0, gp, tag)
    requires zero ==> BytesZeroed(m, r, GRANULE_SIZE * g0, GRANULE_SIZE * gp)
    requires !zero ==> r.bytes == m.bytes
    ensures TagsWritten(m, r', g0, gp + 2 * n, tag)
    ensures zero ==> BytesZeroed(m, r', GRANULE_SIZE * g0, GRANULE_SIZE * (gp + 2 * n))
    ensures !zero ==> r'.bytes == m.bytes
    ensures n == 0 ==> r' == r
    ensures plan == Repeat(if zero then STZ2G else ST2G, n)
  {
    var q := p;
    ghost var gq := gp;
    ghost var steps: nat := 0;
    r' := r;
    plan := [];
    while q < end
      invariant steps <= n
      invariant end == q + DGRANULE_SIZE * (n - steps)
      invariant gq == gp + 2 * steps && Address(q) == GRANULE_SIZE * gq
      invariant PointerGetTag(q) == tag
      invariant TagsWritten(m, r', g0, gq, tag)
      invariant zero ==> BytesZeroed(m, r', GRANULE_SIZE * g0, GRANULE_SIZE * gq)
      invariant !zero ==> r'.bytes == m.bytes
      invariant n == 0 ==> r' == r
      invariant plan == Repeat(if zero then STZ2G else ST2G, steps)
      decreases n - steps
    {
      if zero {
        r' := ZeroDoubleGranule(m, r', q, g0, gq, tag);
      } else {
        r' := TagDoubleGranule(m, r', q, g0, gq, tag);
      }
      AdvanceWithinAddressSpace(q, DGRANULE_SIZE);
      q := q + DGRANULE_SIZE;
      gq := gq + 2;
      RepeatSnoc(if zero then STZ2G else ST2G, steps);
      plan := plan + [if zero then STZ2G else ST2G];
      steps := steps + 1;
    }
    assert steps == n;
    assert q == end;
  }

  /** memoryTag: every granule of `[ptr, ptr + size)` gets the tag of `ptr`;
      all other granules and all payload bytes are unchanged. The header
      asserts that `size` is granule-aligned and documents that `ptr` must
      be. Its comment at mtelib.h:80-81 says a misaligned `ptr` would tag
      more than `size` bytes; STG in fact faults on a misaligned address. */
  method MemoryTag(m: Memory, ptr: Pointer, size: U64) returns (r: Memory, plan: seq<TagStore>)
    requires GranuleAligned(ptr)
    requires GranuleAligned(size)
    requires WithinAddressSpace(ptr, size)
    ensures forall g :: InGranules(ptr, size, g) ==> r.tags(g) == PointerGetTag(ptr)
    ensures forall g {:trigger r.tags(g)} :: !InGranules(ptr, size, g) ==> r.tags(g) == m.tags(g)
    ensures r.bytes == m.bytes
    ensures size == 0 ==> r == m
    ensures plan == DoubleGranulePlan(size, STG, ST2G)
  {
    AdvanceWithinAddressSpace(ptr, size);
    SplitIntoDoubleGranules(size);
    var end: Pointer := ptr + size;
    var p: Pointer := ptr;
    var remaining := size;
    ghost var tag := PointerGetTag(ptr);
    ghost var g0 := GranuleOf(Address(ptr));
    assert Address(ptr) == GRANULE_SIZE * g0;
    ghost var gp := g0;
    r := m;
    var lead := [];
    if remaining % DGRANULE_SIZE != 0 {
      r := TagGranule(m, r, p, g0, gp, tag);
      AdvanceWithinAddressSpace(p, GRANULE_SIZE);
      p := p + GRANULE_SIZE;
      gp := gp + 1;
      remaining := remaining - GRANULE_SIZE;
      lead := [STG];
    }
    assert remaining % DGRANULE_SIZE == 0;
    var rest;
    r, rest := DoubleGranuleLoop(m, r, p, end, false, size / DGRANULE_SIZE, g0, gp, tag);
    plan := lead + rest;
    RegionTagged(m, r, ptr, size, g0, gp + 2 * (size / DGRANULE_SIZE));
  }

  /** memoryTagAndZero: every granule of `[ptr, ptr + size)` gets the tag of
      `ptr` and every byte of it becomes zero; nothing outside the region
      changes. The header asserts that `ptr` and `size` are granule-aligned
      (STZG and STZ2G fault on a misaligned address). */
  method MemoryTagAndZero(m: Memory, ptr: Pointer, size: U64) returns (r: Memory, plan: seq<TagStore>)
    requires GranuleAligned(ptr)
    requires GranuleAligned(size)
    requires WithinAddressSpace(ptr, size)
    ensures forall g :: InGranules(ptr, size, g) ==> r.tags(g) == PointerGetTag(ptr)
    ensures forall g {:trigger r.tags(g)} :: !InGranules(ptr, size, g) ==> r.tags(g) == m.tags(g)
    ensures forall a :: InBytes(ptr, size, a) ==> r.bytes(a) == 0
    ensures forall a {:trigger r.bytes(a)} :: !InBytes(ptr, size, a) ==> r.bytes(a) == m.bytes(a)
    ensures size == 0 ==> r == m
    ensures plan == DoubleGranulePlan(size, STZG, STZ2G)
  {
    AdvanceWithinAddressSpace(ptr, size);
    SplitIntoDoubleGranules(size);
    var end: Pointer := ptr + size;
    var p: Pointer := ptr;
    var remaining := size;
    ghost var tag := PointerGetTag(ptr);
    ghost var g0 := GranuleOf(Address(ptr));
    assert Address(ptr) == GRANULE_SIZE * g0;
    ghost var gp := g0;
    r := m;
    var lead := [];
    if remaining % DGRANULE_SIZE != 0 {
      r := ZeroGranule(m, r, p, g0, gp, tag);
      AdvanceWithinAddressSpace(p, GRANULE_SIZE);
      p := p + GRANULE_SIZE;
      gp := gp + 1;
      remaining := remaining - GRANULE_SIZE;
      lead := [STZG];
    }
    assert remaining % DGRANULE_SIZE == 0;
    var rest;
    r, rest := DoubleGranuleLoop(m, r, p, end, true, size / DGRANULE_SIZE, g0, gp, tag);
    plan := lead + rest;
    RegionTagged(m, r, ptr, size, g0, gp + 2 * (size / DGRANULE_SIZE));
    RegionZeroed(m, r, ptr, size, g0, gp + 2 * (size / DGRANULE_SIZE));
  }

  /** The source range of a copy ends before the destination begins or
      starts after it ends. */
  predicate Disjoint(dst: Pointer, src: Pointer, size: nat)
  {
    Address(src) + size <= Address(dst) || Address(dst) + size <= Address(src)
  }

  /** LDP followed by STGP: the 16 bytes at `s` go to the granule at `d`,
      which gets `d`'s tag. */
  method LdpStgp(r: Memory, d: Pointer, s: Pointer) returns (r': Memory)
    requires GranuleAligned(Address(d))
    ensures ReadBytes(r'.bytes, Address(d), GRANULE_SIZE) == ReadBytes(r.bytes, Address(s), GRANULE_SIZE)
    ensures forall a {:trigger r'.bytes(a)} :: !(Address(d) <= a < Address(d) + GRANULE_SIZE) ==> r'.bytes(a) == r.bytes(a)
    ensures r'.tags(GranuleOf(Address(d))) == PointerGetTag(d)
    ensures forall g {:trigger r'.tags(g)} :: g != GranuleOf(Address(d)) ==> r'.tags(g) == r.tags(g)
  {
    var (lo, hi) := Ldp(r, s);
    r' := Stgp(r, lo, hi, d);
  }

  /** One LDP/STGP pair of memoryTagAndCopy: the granule at `d` joins both
      the run of bytes copied from `from` on and the run of granules tagged
      `tag`. The granule read is not one the run has already overwritten. */
  method CopyGranule(ghost m: Memory, r: Memory, d: Pointer, s: Pointer,
                     ghost g0: int, ghost gd: int, ghost from: int, ghost tag: Tag)
    returns (r': Memory)
    requires g0 <= gd && Address(d) == GRANULE_SIZE * gd && PointerGetTag(d) == tag
    requires Address(s) == Address(d) - GRANULE_SIZE * g0 + from
    requires Address(s) + GRANULE_SIZE <= GRANULE_SIZE * g0 || Address(d) <= Address(s)
    requires TagsWritten(m, r, g0, gd, tag)
    requires BytesCopied(m, r, GRANULE_SIZE * g0, Address(d), from)
    ensures TagsWritten(m, r', g0, gd + 1, tag)
    ensures BytesCopied(m, r', GRANULE_SIZE * g0, Address(d) + GRANULE_SIZE, from)
  {
    GranuleOfMultiple(gd);
    r' := LdpStgp(r, d, s);
    SameReadBytes(r'.bytes, r.bytes, Address(d), Address(s), GRANULE_SIZE);
    CopyStep(m, r, r', GRANULE_SIZE * g0, Address(d), from);
    TagStep(m, r, r', g0, gd, 1, tag);
  }

  /** The loop of memoryTagAndCopy: `n` granules copied from `src` to `dst`
      and tagged with `dst`'s tag. */
  method CopyLoop(m: Memory, dst: Pointer, src: Pointer, end: Pointer, ghost n: nat,
                  ghost g0: int, ghost tag: Tag)
    returns (r: Memory, plan: seq<TagStore>)
    requires Address(dst) == GRANULE_SIZE * g0 && PointerGetTag(dst) == tag
    requires end == dst + GRANULE_SIZE * n
    requires Address(dst) + GRANULE_SIZE * n < TAG_UNIT && Address(src) + GRANULE_SIZE * n < TAG_UNIT
    requires Address(src) + GRANULE_SIZE * n <= Address(dst) || Address(dst) + GRANULE_SIZE * n <= Address(src)
    ensures TagsWritten(m, r, g0, g0 + n, tag)
    ensures BytesCopied(m, r, Address(dst), Address(dst) + GRANULE_SIZE * n, Address(src))
    ensures n == 0 ==> r == m
    ensures plan == Repeat(STGP, n)
  {
    var d: Pointer := dst;
    var s: Pointer := src;
    ghost var from := Address(src);
    ghost var steps: nat := 0;
    ghost var gd := g0;
    r := m;
    plan := [];
    while d < end
      invariant steps <= n
      invariant end == d + GRANULE_SIZE * (n - steps)
      invariant gd == g0 + steps && Address(d) == GRANULE_SIZE * gd && PointerGetTag(d) == tag
      invariant Address(s) == from + GRANULE_SIZE * steps
      invariant BytesCopied(m, r, GRANULE_SIZE * g0, GRANULE_SIZE * gd, from)
      invariant TagsWritten(m, r, g0, gd, tag)
      invariant n == 0 ==> r == m
      invariant plan == Repeat(STGP, steps)
      decreases n - steps
    {
      r := CopyGranule(m, r, d, s, g0, gd, from, tag);
      AdvanceWithinAddressSpace(s, GRANULE_SIZE);
      s := s + GRANULE_SIZE;
      AdvanceWithinAddressSpace(d, GRANULE_SIZE);
      d := d + GRANULE_SIZE;
      RepeatSnoc(STGP, steps);
      plan := plan + [STGP];
      steps := steps + 1;
      gd := gd + 1;
    }
    assert steps == n;
    assert d == end;
  }

  /** memoryTagAndCopy: the `size` bytes at `src` are copied to `dst` and every
      granule of `[dst, dst + size)` gets the tag of `dst`, one granule per
      LDP/STGP pair; nothing outside the destination changes, so in
      particular the source bytes and the source granules' tags are kept.
      The header asserts that `dst` and `size` are granule-aligned; the
      model also asks for the two ranges not to overlap, as for memcpy. */
  method MemoryTagAndCopy(m: Memory, dst: Pointer, src: Pointer, size: U64)
    returns (r: Memory, plan: seq<TagStore>)
    requires GranuleAligned(dst)
    requires GranuleAligned(size)
    requires WithinAddressSpace(dst, size) && WithinAddressSpace(src, size)
    requires Disjoint(dst, src, size)
    ensures forall a {:trigger r.bytes(a)} :: InBytes(dst, size, a) ==> r.bytes(a) == m.bytes(a - Address(dst) + Address(src))
    ensures forall a {:trigger r.bytes(a)} :: !InBytes(dst, size, a) ==> r.bytes(a) == m.bytes(a)
    ensures forall g :: InGranules(dst, size, g) ==> r.tags(g) == PointerGetTag(dst)
    ensures forall g {:trigger r.tags(g)} :: !InGranules(dst, size, g) ==> r.tags(g) == m.tags(g)
    ensures forall a {:trigger r.bytes(a)} :: InBytes(src, size, a) ==> r.bytes(a) == m.bytes(a)
    ensures forall a {:trigger r.tags(GranuleOf(a))} :: InBytes(src, size, a) ==> r.tags(GranuleOf(a)) == m.tags(GranuleOf(a))
    ensures size == 0 ==> r == m
    ensures plan == Repeat(STGP, size / GRANULE_SIZE)
  {
    AdvanceWithinAddressSpace(dst, size);
    var end: Pointer := dst + size;
    ghost var g0 := GranuleOf(Address(dst));
    assert Address(dst) == GRANULE_SIZE * g0;
    r, plan := CopyLoop(m, dst, src, end, size / GRANULE_SIZE, g0, PointerGetTag(dst));
    GranuleOfMultiple(g0 + size / GRANULE_SIZE);
    forall a | InBytes(src, size, a)
      ensures r.tags(GranuleOf(a)) == m.tags(GranuleOf(a))
    {
      SourceGranuleOutside(dst, size, a);
    }
  }

  /** The check the hardware makes on a load or store through `p`: the
      allocation tag of the addressed granule equals the pointer's tag. */
  predicate TagCheckPasses(m: Memory, p: Pointer)
  {
    m.tags(GranuleOf(Address(p))) == PointerGetTag(p)
  }

  /** After memoryTag, memoryTagAndZero or memoryTagAndCopy (whose
      postconditions give the requires), every byte of the region can be
      accessed through the pointer the region was tagged with. */
  lemma RegionAccessible(m: Memory, ptr: Pointer, size: nat, i: nat)
    requires GranuleAligned(ptr) && GranuleAligned(size) && WithinAddressSpace(ptr, size)
    requires forall g :: InGranules(ptr, size, g) ==> m.tags(g) == PointerGetTag(ptr)
    requires i < size
    ensures ptr + i < TWO_TO_THE_64 && TagCheckPasses(m, ptr + i)
  {
    AdvanceWithinAddressSpace(ptr, i);
    assert InGranules(ptr, size, GranuleOf(Address(ptr) + i));
  }

  /** A pointer to the region that carries any other tag fails the check:
      once a region is retagged, a stale pointer to it no longer works, and
      neither does one whose tag was overwritten with pointerSetTag. */
  lemma OtherTagFails(m: Memory, ptr: Pointer, size: nat, q: Pointer)
    requires GranuleAligned(ptr) && GranuleAligned(size) && WithinAddressSpace(ptr, size)
    requires forall g :: InGranules(ptr, size, g) ==> m.tags(g) == PointerGetTag(ptr)
    requires InBytes(ptr, size, Address(q)) && PointerGetTag(q) != PointerGetTag(ptr)
    ensures !TagCheckPasses(m, q)
  {
    assert InGranules(ptr, size, GranuleOf(Address(q)));
  }

  /** After memoryTagAndZero the region reads back as zeros. */
  lemma ZeroedRegionReadsZero(r: Memory, ptr: Pointer, size: nat)
    requires forall a :: InBytes(ptr, size, a) ==> r.bytes(a) == 0
    ensures ReadBytes(r.bytes, Address(ptr), size) == seq(size, _ => 0)
  {
  }

  /** After memoryTagAndCopy the destination reads back as what the source
      held, and the source still holds it. */
  lemma CopyReadsBack(m: Memory, r: Memory, dst: Pointer, src: Pointer, size: nat)
    requires forall a {:trigger r.bytes(a)} :: InBytes(dst, size, a) ==> r.bytes(a) == m.bytes(a - Address(dst) + Address(src))
    requires forall a {:trigger r.bytes(a)} :: InBytes(src, size, a) ==> r.bytes(a) == m.bytes(a)
    ensures ReadBytes(r.bytes, Address(dst), size) == ReadBytes(m.bytes, Address(src), size)
    ensures ReadBytes(r.bytes, Address(src), size) == ReadBytes(m.bytes, Address(src), size)
  {
    var got, want := ReadBytes(r.bytes, Address(dst), size), ReadBytes(m.bytes, Address(src), size);
    forall k | 0 <= k < size
      ensures got[k] == want[k]
    {
      assert InBytes(dst, size, Address(dst) + k);
    }
  }
}
