/**
  Pointer tagging primitives of the MTE library: the constants of the
  header and the codec that reads and writes the 4-bit allocation tag held
  in bits [59:56] of a 64-bit pointer value.

  Pointer values are modelled as integers in [0, 2^64). The header works
  with masks and shifts; on non-negative values `x >> n` is `x / 2^n` and
  `x & (2^n - 1)` is `x % 2^n`, which is how they are written here.
 */
module TagCodec {

  /** Largest tag value (4-bit tag field). */
  const MAX_TAG: nat := 0xF
  /** Bit position of the tag field inside a pointer. */
  const TAG_SHIFT: nat := 56

  const LOG2_TAG_GRANULE_SIZE: nat := 4
  /** 1 << LOG2_TAG_GRANULE_SIZE: bytes covered by one allocation tag. */
  const GRANULE_SIZE: nat := 16
  const GRANULE_ALIGNMENT_MASK: nat := GRANULE_SIZE - 1

  const LOG2_DGRANULE_SIZE: nat := 5
  /** 1 << LOG2_DGRANULE_SIZE: bytes covered by one double-granule store. */
  const DGRANULE_SIZE: nat := 32
  const DGRANULE_ALIGNMENT_MASK: nat := DGRANULE_SIZE - 1

  /** 1 << TAG_SHIFT: weight of the lowest bit of the tag field. */
  const TAG_UNIT: nat := 0x100_0000_0000_0000
  /** 1 << (TAG_SHIFT + 4): weight of the lowest bit above the tag field. */
  const HIGH_UNIT: nat := 0x1000_0000_0000_0000
  const TWO_TO_THE_64: nat := 0x1_0000_0000_0000_0000

  /** A uint64_t / uintptr_t / size_t value. */
  type U64 = x: int | 0 <= x < TWO_TO_THE_64

  /** A pointer value, tag included (void* cast to uintptr_t). */
  type Pointer = U64

  /** A valid allocation tag. */
  type Tag = t: nat | t <= MAX_TAG

  /** Number of bytes covered by `n` bits, i.e. 2^n. */
  function Pow2(n: nat): (r: nat)
    ensures r > 0
  {
    if n == 0 then 1 else 2 * Pow2(n - 1)
  }

  /** Shifting by `a + b` bits is shifting by `a` and then by `b`. */
  lemma {:induction false} Pow2Add(a: nat, b: nat)
    ensures Pow2(a + b) == Pow2(a) * Pow2(b)
    decreases a
  {
    if a > 0 {
      Pow2Add(a - 1, b);
      assert Pow2(a + b) == 2 * Pow2(a - 1 + b);
    }
  }

  /** The granule constants are the powers of two their logarithms name,
      and the alignment masks are one less (static_asserts of the header). */
  lemma GranuleConstants()
    ensures GRANULE_SIZE == Pow2(LOG2_TAG_GRANULE_SIZE) && GRANULE_ALIGNMENT_MASK == 0xF
    ensures DGRANULE_SIZE == Pow2(LOG2_DGRANULE_SIZE) && DGRANULE_ALIGNMENT_MASK == 0x1F
    ensures HIGH_UNIT == (MAX_TAG + 1) * TAG_UNIT && TWO_TO_THE_64 == 0x100 * TAG_UNIT
    ensures TAG_UNIT == Pow2(TAG_SHIFT) && HIGH_UNIT == Pow2(TAG_SHIFT + 4) && TWO_TO_THE_64 == Pow2(64)
  {
    assert Pow2(8) == 0x100;
    Pow2Add(8, 8);
    assert Pow2(16) == 0x1_0000;
    Pow2Add(16, 16);
    assert Pow2(32) == 0x1_0000_0000;
    Pow2Add(32, 16);
    assert Pow2(48) == 0x1_0000_0000_0000;
    Pow2Add(48, 8);
    assert Pow2(56) == TAG_UNIT;
    Pow2Add(56, 4);
    Pow2Add(56, 8);
  }

  /** Bits [55:0] of a pointer: the address the hardware uses, the top
      byte being ignored on access. */
  function Address(p: Pointer): nat
  {
    p % TAG_UNIT
  }

  /** Bits [63:60] of a pointer: the part of the top byte above the tag. */
  function HighBits(p: Pointer): nat
  {
    p / HIGH_UNIT
  }

  /** pointerGetTag: `(ptr >> TAG_SHIFT) & MAX_TAG`. Bits [59:0] of the
      pointer are the tag placed directly above the 56-bit address. */
  function PointerGetTag(p: Pointer): (t: Tag)
    ensures t * TAG_UNIT + Address(p) == p % HIGH_UNIT
  {
    (p / TAG_UNIT) % (MAX_TAG + 1)
  }

  /** Reassembles a pointer from its three fields. */
  function Compose(high: nat, tag: Tag, address: nat): int
  {
    high * HIGH_UNIT + tag * TAG_UNIT + address
  }

  /** Every pointer is the composition of its high bits, tag and address,
      and each field is within its width. */
  lemma Decompose(p: Pointer)
    ensures p == Compose(HighBits(p), PointerGetTag(p), Address(p))
    ensures Address(p) < TAG_UNIT && HighBits(p) <= MAX_TAG
  {
    var q := p / TAG_UNIT;
    assert p == q * TAG_UNIT + Address(p);
    assert q == (q / (MAX_TAG + 1)) * (MAX_TAG + 1) + PointerGetTag(p);
    assert q / (MAX_TAG + 1) == HighBits(p);
  }

  /** The fields of a composed pointer are the ones it was composed of. */
  lemma {:induction false} ComposeFields(high: nat, tag: Tag, address: nat)
    requires high <= MAX_TAG && address < TAG_UNIT
    ensures 0 <= Compose(high, tag, address) < TWO_TO_THE_64
    ensures var p: Pointer := Compose(high, tag, address);
      HighBits(p) == high && PointerGetTag(p) == tag && Address(p) == address
  {
    var p := Compose(high, tag, address);
    var q := high * (MAX_TAG + 1) + tag;
    assert p == q * TAG_UNIT + address;
    assert p / TAG_UNIT == q;
    assert q % (MAX_TAG + 1) == tag;
  }

  /** pointerSetTag: clears the tag field and inserts `tag`. The header
      asserts `tag <= MAX_TAG` first. The result carries `tag` and agrees
      with `p` on every bit outside [59:56]. */
  function PointerSetTag(p: Pointer, tag: U64): (r: Pointer)
    requires tag <= MAX_TAG
    ensures PointerGetTag(r) == tag
    ensures Address(r) == Address(p) && HighBits(r) == HighBits(p)
  {
    Decompose(p);
    ComposeFields(HighBits(p), tag, Address(p));
    // (p & ~(MAX_TAG << TAG_SHIFT)) | (tag << TAG_SHIFT): the cleared field
    // holds zero, so the OR adds tag * 2^56.
    (p - PointerGetTag(p) * TAG_UNIT) + tag * TAG_UNIT
  }

  /** Writing back the tag a pointer already carries leaves it unchanged. */
  lemma SetTagOwnTag(p: Pointer)
    ensures PointerSetTag(p, PointerGetTag(p)) == p
  {
  }

  /** The last tag written wins. */
  lemma SetTagTwice(p: Pointer, a: Tag, b: Tag)
    ensures PointerSetTag(PointerSetTag(p, a), b) == PointerSetTag(p, b)
  {
    var q := PointerSetTag(p, a);
    Decompose(q);
    Decompose(p);
  }

  /** Two pointers with the same address and high bits differ at most in
      their tag: each is the other with its tag replaced. */
  lemma SameUntaggedBits(p: Pointer, q: Pointer)
    requires Address(p) == Address(q) && HighBits(p) == HighBits(q)
    ensures q == PointerSetTag(p, PointerGetTag(q))
  {
    Decompose(p);
    Decompose(q);
  }

  /** Moving a pointer forward by `d` bytes within its 2^56-byte address
      space moves its address by `d` and keeps its whole top byte, so its
      tag is unchanged. */
  lemma {:induction false} AdvanceWithinAddressSpace(p: Pointer, d: nat)
    requires Address(p) + d < TAG_UNIT
    ensures p + d < TWO_TO_THE_64
    ensures Address(p + d) == Address(p) + d
    ensures PointerGetTag(p + d) == PointerGetTag(p) && HighBits(p + d) == HighBits(p)
  {
    Decompose(p);
    ComposeFields(HighBits(p), PointerGetTag(p), Address(p) + d);
  }
}
