/**
  Exclude masks and random tag generation.

  An exclude mask is a 64-bit value whose bit `t` (for t in 0..15) says
  that tag `t` must not be produced by random tag generation (the IRG
  instruction). Only the low 16 bits are read by IRG.
 */
module ExcludeMasks {
  import opened TagCodec

  /** ExcludeMask: a uint64_t. */
  type ExcludeMask = bv64

  /** Bit `t` of the mask is set: tag `t` is excluded. */
  predicate IsExcluded(mask: ExcludeMask, t: Tag)
  {
    (mask >> t) & 1 == 1
  }

  /** The low 16 bits are all ones: no tag is left to choose from. */
  predicate AllExcluded(mask: ExcludeMask)
  {
    mask & 0xFFFF == 0xFFFF
  }

  /** The 4-bit pattern of a tag. */
  function TagBits(t: Tag): bv4
  {
    t as bv4
  }

  /** Distinct tags have distinct bit patterns. */
  lemma TagBitsInjective(t: Tag, u: Tag)
    requires t != u
    ensures TagBits(t) != TagBits(u)
  {
  }

  /** Shifting by a tag is shifting by its bit pattern. */
  lemma ShiftByTag(mask: ExcludeMask, t: Tag)
    ensures (mask >> t) & 1 == (mask >> (TagBits(t) as bv64)) & 1
    ensures (1 as bv64) << t == (1 as bv64) << (TagBits(t) as bv64)
  {
  }

  /** Bit `b` of `mask | (1 << a)` is set when b is a or bit b of mask is. */
  lemma OrBit(mask: ExcludeMask, a: bv4, b: bv4)
    ensures ((mask | (1 << (a as bv64))) >> (b as bv64)) & 1 == 1
            <==> a == b || (mask >> (b as bv64)) & 1 == 1
  {
  }

  /** Setting bit `tag` excludes `tag` and leaves every other tag as it was. */
  lemma AddBitExcludes(mask: ExcludeMask, tag: Tag, t: Tag)
    ensures IsExcluded(mask | (1 << tag), t) <==> t == tag || IsExcluded(mask, t)
  {
    ShiftByTag(mask | (1 << tag), t);
    ShiftByTag(mask, t);
    ShiftByTag(mask, tag);
    OrBit(mask, TagBits(tag), TagBits(t));
    if t != tag {
      TagBitsInjective(t, tag);
    }
  }

  /** A mask excludes every tag exactly when its low 16 bits are all set. */
  lemma AllExcludedIffEveryTag(mask: ExcludeMask)
    ensures AllExcluded(mask) <==> forall t: Tag :: IsExcluded(mask, t)
  {
    if AllExcluded(mask) {
      forall t: Tag
        ensures IsExcluded(mask, t)
      {
        ShiftByTag(mask, t);
        assert TagBits(t) as bv64 < 16;
      }
    }
    if forall t: Tag :: IsExcluded(mask, t) {
      assert IsExcluded(mask, 0) && IsExcluded(mask, 1) && IsExcluded(mask, 2) && IsExcluded(mask, 3);
      assert IsExcluded(mask, 4) && IsExcluded(mask, 5) && IsExcluded(mask, 6) && IsExcluded(mask, 7);
      assert IsExcluded(mask, 8) && IsExcluded(mask, 9) && IsExcluded(mask, 10) && IsExcluded(mask, 11);
      assert IsExcluded(mask, 12) && IsExcluded(mask, 13) && IsExcluded(mask, 14) && IsExcluded(mask, 15);
    }
  }

  /** What excludeMaskAddTag does to the excluded set: exactly `tag` joins. */
  lemma AddTagMeaning(mask: ExcludeMask, tag: Tag)
    ensures forall t: Tag :: IsExcluded(mask | (1 << tag), t) <==> t == tag || IsExcluded(mask, t)
  {
    forall t: Tag
      ensures IsExcluded(mask | (1 << tag), t) <==> t == tag || IsExcluded(mask, t)
    {
      AddBitExcludes(mask, tag, t);
    }
  }

  /** excludeMaskAddTag: `mask | (1 << tag)` after asserting `tag <= MAX_TAG`
      (the shifted `1` is a C int, which holds 1 << 15 without overflow).
      Exactly tag `tag` joins the excluded set, bits 16..63 are untouched,
      and the mask changes unless `tag` was already excluded. */
  function ExcludeMaskAddTag(mask: ExcludeMask, tag: U64): (r: ExcludeMask)
    requires tag <= MAX_TAG
    ensures forall t: Tag :: IsExcluded(r, t) <==> t == tag || IsExcluded(mask, t)
    ensures r >> 16 == mask >> 16
    ensures r == mask <==> IsExcluded(mask, tag)
  {
    AddTagMeaning(mask, tag);
    ShiftByTag(mask, tag);
    OrBit(mask, TagBits(tag), TagBits(tag));
    mask | (1 << tag)
  }

  /** Adding a tag twice is adding it once. */
  lemma AddTagIdempotent(mask: ExcludeMask, tag: Tag)
    ensures ExcludeMaskAddTag(ExcludeMaskAddTag(mask, tag), tag) == ExcludeMaskAddTag(mask, tag)
  {
  }

  /** A mask that only uses the 16 significant bits keeps doing so. */
  lemma AddTagKeepsWidth(mask: ExcludeMask, tag: Tag)
    requires mask < 0x1_0000
    ensures ExcludeMaskAddTag(mask, tag) < 0x1_0000
  {
    var r := ExcludeMaskAddTag(mask, tag);
    assert r >> 16 == 0;
  }

  /** excludeMaskAddPtrTag: the GMI instruction. It sets the bit selected by
      the tag held in bits [59:56] of `ptr`, and is therefore the same as
      adding that tag with excludeMaskAddTag. */
  function ExcludeMaskAddPtrTag(mask: ExcludeMask, ptr: Pointer): (r: ExcludeMask)
    ensures r == ExcludeMaskAddTag(mask, PointerGetTag(ptr))
  {
    mask | (1 << ((ptr / TAG_UNIT) % (MAX_TAG + 1)))
  }

  /** Starting from the empty mask, GMI yields a mask whose one set bit is
      the pointer's tag; it therefore never excludes every tag. */
  lemma PtrTagMaskIsSingleton(ptr: Pointer)
    ensures var r := ExcludeMaskAddPtrTag(0, ptr);
      (forall t: Tag :: IsExcluded(r, t) <==> t == PointerGetTag(ptr)) && r < 0x1_0000
    ensures !AllExcluded(ExcludeMaskAddPtrTag(0, ptr))
  {
    var r := ExcludeMaskAddPtrTag(0, ptr);
    assert r >> 16 == 0;
    assert !IsExcluded(r, (PointerGetTag(ptr) + 1) % (MAX_TAG + 1));
    AllExcludedIffEveryTag(r);
  }

  /** The tag after `t`, wrapping from 15 to 0. */
  function NextTag(t: Tag): Tag
  {
    (t + 1) % (MAX_TAG + 1)
  }

  /** How many NextTag steps lead from `from` to `to`. */
  function Distance(from: Tag, to: Tag): nat
  {
    (to - from) % (MAX_TAG + 1)
  }

  /** The `n` tags `start`, NextTag(start), ... are all excluded. */
  predicate ExcludedRun(mask: ExcludeMask, start: Tag, n: nat)
    decreases n
  {
    n == 0 || (IsExcluded(mask, start) && ExcludedRun(mask, NextTag(start), n - 1))
  }

  /** The tag choice of IRG: from a start tag supplied by the hardware's
      random source, take the first tag not excluded, looking at most at
      `remaining` tags. When every tag looked at is excluded the result is
      0; no caller may rely on that. The Arm pseudo-code function
      ChooseNonExcludedTag can also skip a further `offset` allowed tags;
      this is its offset-zero walk, which reaches the same set of tags. */
  function FirstAllowedTag(mask: ExcludeMask, start: Tag, remaining: nat): (t: Tag)
    ensures !IsExcluded(mask, t) || ExcludedRun(mask, start, remaining)
    ensures remaining > 0 && !IsExcluded(mask, start) ==> t == start
    decreases remaining
  {
    if remaining == 0 then 0
    else if !IsExcluded(mask, start) then start
    else FirstAllowedTag(mask, NextTag(start), remaining - 1)
  }

  /** Stepping the start forward brings it one step closer to any other tag. */
  lemma DistanceStep(start: Tag, t: Tag)
    requires t != start
    ensures Distance(NextTag(start), t) == Distance(start, t) - 1
  {
  }

  /** Every tag within `n` steps of the start of an excluded run is excluded. */
  lemma {:induction false} RunCovers(mask: ExcludeMask, start: Tag, n: nat, t: Tag)
    requires ExcludedRun(mask, start, n) && Distance(start, t) < n
    ensures IsExcluded(mask, t)
    decreases n
  {
    if t != start {
      DistanceStep(start, t);
      RunCovers(mask, NextTag(start), n - 1, t);
    }
  }

  /** A run of 16 excluded tags is the whole tag space. */
  lemma FullRunExcludesAll(mask: ExcludeMask, start: Tag)
    ensures ExcludedRun(mask, start, MAX_TAG + 1) ==> AllExcluded(mask)
  {
    if ExcludedRun(mask, start, MAX_TAG + 1) {
      forall t: Tag
        ensures IsExcluded(mask, t)
      {
        RunCovers(mask, start, MAX_TAG + 1, t);
      }
      AllExcludedIffEveryTag(mask);
    }
  }

  /** pointerSetRandomTag: the IRG instruction. `random` stands for the
      hardware's random source. The result is `ptr` with only its tag
      replaced; unless the mask excludes all 16 tags, the new tag is not
      excluded, and any tag that is not excluded can be produced. */
  function PointerSetRandomTag(ptr: Pointer, excluded: ExcludeMask, random: Tag): (r: Pointer)
    ensures Address(r) == Address(ptr) && HighBits(r) == HighBits(ptr)
    ensures !AllExcluded(excluded) ==> !IsExcluded(excluded, PointerGetTag(r))
    ensures !IsExcluded(excluded, random) ==> PointerGetTag(r) == random
  {
    var t := FirstAllowedTag(excluded, random, MAX_TAG + 1);
    FullRunExcludesAll(excluded, random);
    PointerSetTag(ptr, t)
  }

  /** Re-tagging any pointer `q` with the tag of `p` excluded through GMI
      always yields a tag different from `p`'s. The demo does this with
      `q == p` before zeroing and with a second pointer before copying. */
  lemma FreshTagDiffers(p: Pointer, q: Pointer, random: Tag)
    ensures PointerGetTag(PointerSetRandomTag(q, ExcludeMaskAddPtrTag(0, p), random))
            != PointerGetTag(p)
  {
    PtrTagMaskIsSingleton(p);
  }

  /** A tag excluded through excludeMaskAddTag is never generated, whatever
      the random source yields (the demo's 1000-round check). */
  lemma ExcludedTagNeverGenerated(ptr: Pointer, tag: Tag, random: Tag)
    ensures PointerGetTag(PointerSetRandomTag(ptr, ExcludeMaskAddTag(0, tag), random)) != tag
  {
    var mask := ExcludeMaskAddTag(0, tag);
    assert !IsExcluded(mask, NextTag(tag));
    AllExcludedIffEveryTag(mask);
  }
}
