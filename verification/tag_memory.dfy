/**
  The memory the MTE instructions act on, and the instructions the region
  operations of the library issue.

  Memory is two pieces of state: the allocation tag of every 16-byte
  granule, indexed by granule number (untagged address / 16), and the
  payload byte at every untagged address. An instruction is a function
  from one memory state to the next; the register write-back of the
  post-indexed forms (`[Xn], #imm`) is done by the caller.
 */
module TagMemory {
  import opened TagCodec

  type Byte = bv8

  /** A 64-bit general-purpose register value. */
  type Word = bv64

  datatype Memory = Memory(tags: int -> Tag, bytes: int -> Byte)

  /** Granule holding untagged address `a` (a >> LOG2_TAG_GRANULE_SIZE). */
  function GranuleOf(a: int): int
  {
    a / GRANULE_SIZE
  }

  /** `(x & GRANULE_ALIGNMENT_MASK) == 0` */
  predicate GranuleAligned(x: int)
  {
    x % GRANULE_SIZE == 0
  }

  /** Granule `g` starts at address `GRANULE_SIZE * g`. */
  lemma GranuleOfMultiple(g: int)
    ensures GranuleOf(GRANULE_SIZE * g) == g && GranuleAligned(GRANULE_SIZE * g)
  {
  }

  /** The two memory states hold the same tags and the same bytes. */
  ghost predicate SameMemory(m1: Memory, m2: Memory)
  {
    (forall g :: m1.tags(g) == m2.tags(g)) && (forall a :: m1.bytes(a) == m2.bytes(a))
  }

  /** The `n` bytes of `f` starting at address `a`. */
  function ReadBytes(f: int -> Byte, a: int, n: nat): (s: seq<Byte>)
    ensures |s| == n && forall k :: 0 <= k < n ==> s[k] == f(a + k)
  {
    seq(n, k => f(a + k))
  }

  /** Two byte ranges read alike agree address by address. */
  lemma SameReadBytes(f: int -> Byte, g: int -> Byte, a: int, b: int, n: nat)
    requires ReadBytes(f, a, n) == ReadBytes(g, b, n)
    ensures forall x {:trigger f(x)} :: a <= x < a + n ==> f(x) == g(x - a + b)
  {
    forall x | a <= x < a + n
      ensures f(x) == g(x - a + b)
    {
      var k := x - a;
      assert f(a + k) == ReadBytes(f, a, n)[k];
      assert ReadBytes(g, b, n)[k] == g(b + k);
    }
  }

  /** The little-endian bytes of a register. */
  function Unpack(w: Word): (s: seq<Byte>)
    ensures |s| == 8
  {
    [(w & 0xFF) as Byte, ((w >> 8) & 0xFF) as Byte, ((w >> 16) & 0xFF) as Byte,
     ((w >> 24) & 0xFF) as Byte, ((w >> 32) & 0xFF) as Byte, ((w >> 40) & 0xFF) as Byte,
     ((w >> 48) & 0xFF) as Byte, ((w >> 56) & 0xFF) as Byte]
  }

  /** The register value whose little-endian bytes are `s`: loading eight
      bytes into a register and storing it back yields the same bytes. */
  function Pack(s: seq<Byte>): (w: Word)
    requires |s| == 8
    ensures Unpack(w) == s
  {
    (s[0] as Word) | (s[1] as Word << 8) | (s[2] as Word << 16) | (s[3] as Word << 24)
    | (s[4] as Word << 32) | (s[5] as Word << 40) | (s[6] as Word << 48) | (s[7] as Word << 56)
  }

  /** Storing a register and loading it back yields the same value. */
  lemma PackUnpack(w: Word)
    ensures Pack(Unpack(w)) == w
  {
  }

  /** `m` with the `count` granules from `first` tagged `tag`. */
  function SetTags(m: Memory, first: int, count: nat, tag: Tag): Memory
  {
    m.(tags := (g: int) => var t: Tag := if first <= g < first + count then tag else m.tags(g); t)
  }

  /** `m` with `s` written at address `a`. */
  function WriteBytes(m: Memory, a: int, s: seq<Byte>): Memory
  {
    m.(bytes := x => if a <= x < a + |s| then s[x - a] else m.bytes(x))
  }

  /** `m` with the `n` bytes from address `a` zeroed. */
  function ZeroBytes(m: Memory, a: int, n: nat): Memory
  {
    m.(bytes := x => if a <= x < a + n then 0 else m.bytes(x))
  }

  /** STG Xt, [Xn]: the granule at Xn's address gets Xt's tag. The address
      must be granule-aligned (otherwise an alignment fault). */
  function Stg(m: Memory, xt: Pointer, xn: Pointer): (r: Memory)
    requires GranuleAligned(Address(xn))
    ensures r.tags(GranuleOf(Address(xn))) == PointerGetTag(xt)
    ensures forall g {:trigger r.tags(g)} :: g != GranuleOf(Address(xn)) ==> r.tags(g) == m.tags(g)
    ensures r.bytes == m.bytes
  {
    SetTags(m, GranuleOf(Address(xn)), 1, PointerGetTag(xt))
  }

  /** ST2G Xt, [Xn]: the two granules from Xn's address get Xt's tag. */
  function St2g(m: Memory, xt: Pointer, xn: Pointer): (r: Memory)
    requires GranuleAligned(Address(xn))
    ensures forall g :: GranuleOf(Address(xn)) <= g < GranuleOf(Address(xn) + DGRANULE_SIZE)
                        ==> r.tags(g) == PointerGetTag(xt)
    ensures forall g {:trigger r.tags(g)} :: !(GranuleOf(Address(xn)) <= g < GranuleOf(Address(xn) + DGRANULE_SIZE))
                        ==> r.tags(g) == m.tags(g)
    ensures r.bytes == m.bytes
  {
    SetTags(m, GranuleOf(Address(xn)), 2, PointerGetTag(xt))
  }

  /** STZG Xt, [Xn]: as STG, and the granule's 16 bytes become zero. */
  function Stzg(m: Memory, xt: Pointer, xn: Pointer): (r: Memory)
    requires GranuleAligned(Address(xn))
    ensures r.tags(GranuleOf(Address(xn))) == PointerGetTag(xt)
    ensures forall g {:trigger r.tags(g)} :: g != GranuleOf(Address(xn)) ==> r.tags(g) == m.tags(g)
    ensures forall a :: Address(xn) <= a < Address(xn) + GRANULE_SIZE ==> r.bytes(a) == 0
    ensures forall a {:trigger r.bytes(a)} :: !(Address(xn) <= a < Address(xn) + GRANULE_SIZE) ==> r.bytes(a) == m.bytes(a)
  {
    ZeroBytes(SetTags(m, GranuleOf(Address(xn)), 1, PointerGetTag(xt)), Address(xn), GRANULE_SIZE)
  }

  /** STZ2G Xt, [Xn]: as ST2G, and the two granules' 32 bytes become zero. */
  function Stz2g(m: Memory, xt: Pointer, xn: Pointer): (r: Memory)
    requires GranuleAligned(Address(xn))
    ensures forall g :: GranuleOf(Address(xn)) <= g < GranuleOf(Address(xn) + DGRANULE_SIZE)
                        ==> r.tags(g) == PointerGetTag(xt)
    ensures forall g {:trigger r.tags(g)} :: !(GranuleOf(Address(xn)) <= g < GranuleOf(Address(xn) + DGRANULE_SIZE))
                        ==> r.tags(g) == m.tags(g)
    ensures forall a :: Address(xn) <= a < Address(xn) + DGRANULE_SIZE ==> r.bytes(a) == 0
    ensures forall a {:trigger r.bytes(a)} :: !(Address(xn) <= a < Address(xn) + DGRANULE_SIZE) ==> r.bytes(a) == m.bytes(a)
  {
    ZeroBytes(SetTags(m, GranuleOf(Address(xn)), 2, PointerGetTag(xt)), Address(xn), DGRANULE_SIZE)
  }

  /** LDP Xt1, Xt2, [Xn]: two registers loaded from the 16 bytes at Xn's
      address, the first from the lower eight. */
  function Ldp(m: Memory, xn: Pointer): (r: (Word, Word))
    ensures Unpack(r.0) + Unpack(r.1) == ReadBytes(m.bytes, Address(xn), GRANULE_SIZE)
  {
    (Pack(ReadBytes(m.bytes, Address(xn), 8)), Pack(ReadBytes(m.bytes, Address(xn) + 8, 8)))
  }

  /** STGP Xt1, Xt2, [Xn]: the two registers stored to the granule at Xn's
      address, which gets the tag of Xn itself. */
  function Stgp(m: Memory, xt1: Word, xt2: Word, xn: Pointer): (r: Memory)
    requires GranuleAligned(Address(xn))
    ensures r.tags(GranuleOf(Address(xn))) == PointerGetTag(xn)
    ensures forall g {:trigger r.tags(g)} :: g != GranuleOf(Address(xn)) ==> r.tags(g) == m.tags(g)
    ensures ReadBytes(r.bytes, Address(xn), GRANULE_SIZE) == Unpack(xt1) + Unpack(xt2)
    ensures forall a {:trigger r.bytes(a)} :: !(Address(xn) <= a < Address(xn) + GRANULE_SIZE) ==> r.bytes(a) == m.bytes(a)
  {
    WriteBytes(SetTags(m, GranuleOf(Address(xn)), 1, PointerGetTag(xn)), Address(xn), Unpack(xt1) + Unpack(xt2))
  }

  /** ST2G has the effect of two STGs on consecutive granules. */
  lemma St2gIsTwoStg(m: Memory, xt: Pointer, xn: Pointer)
    requires GranuleAligned(Address(xn)) && Address(xn) + GRANULE_SIZE < TAG_UNIT
    ensures Address(xn + GRANULE_SIZE) == Address(xn) + GRANULE_SIZE
    ensures SameMemory(St2g(m, xt, xn), Stg(Stg(m, xt, xn), xt, xn + GRANULE_SIZE))
  {
    AdvanceWithinAddressSpace(xn, GRANULE_SIZE);
  }

  /** STZ2G has the effect of two STZGs on consecutive granules. */
  lemma Stz2gIsTwoStzg(m: Memory, xt: Pointer, xn: Pointer)
    requires GranuleAligned(Address(xn)) && Address(xn) + GRANULE_SIZE < TAG_UNIT
    ensures Address(xn + GRANULE_SIZE) == Address(xn) + GRANULE_SIZE
    ensures SameMemory(Stz2g(m, xt, xn), Stzg(Stzg(m, xt, xn), xt, xn + GRANULE_SIZE))
  {
    AdvanceWithinAddressSpace(xn, GRANULE_SIZE);
  }
}
