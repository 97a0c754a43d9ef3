# MTELib in Dafny

MTELib is a small C header that wraps the Arm Memory Tagging Extension
(MTE) instructions. A 64-bit pointer carries a 4-bit *tag* in bits
[59:56]. Memory carries an *allocation tag* for every 16-byte *granule*.
The library offers:

- the pointer tagging primitives `pointerSetTag` and `pointerGetTag`;
- exclude masks. These are 64-bit values whose bit `t` forbids tag `t`.
  They are built with `excludeMaskAddTag` and with
  `excludeMaskAddPtrTag`, which is the GMI instruction;
- random tagging with `pointerSetRandomTag`, which is the IRG
  instruction;
- three region operations: `memoryTag`, `memoryTagAndZero` and
  `memoryTagAndCopy`. They walk a cursor over a region and issue one MTE
  store (STG, ST2G, STZG, STZ2G or STGP) per step.

The project has four modules:

- `TagCodec` (`tag_codec.dfy`) holds the header's constants and the
  pointer codec. Pointers are integers in [0, 2^64). The header's shifts
  and masks are written as division and remainder by powers of two.
- `ExcludeMasks` (`exclude_mask.dfy`) holds exclude masks (`bv64`) and
  IRG's tag choice.
- `TagMemory` (`tag_memory.dfy`) is the memory state. It holds a tag per
  granule and a byte per untagged address. Each MTE load or store the
  library issues is a function on that state.
- `Regions` (`regions.dfy`) holds the three region operations as methods
  with loops. They return the new memory state and the list of tag stores
  issued. It also holds the lemmas that relate the resulting state to
  later accesses: the tag check passes, the bytes read back.

The header's `MTE_ASSERT`, `ASSERT_VALID_TAG` and `CRP_ASSERT` checks on
arguments become `requires` clauses. The two internal checks (that the
remaining size is a multiple of 32) become `assert` statements that are
proved.

Notes on the header as written:

- The header has no operation that removes a tag from an exclude mask.
- `CRP_ASSERT` is used but never defined in the header. Only `MTE_ASSERT`
  is. It is read as an assertion on the caller's arguments.

## Model

| member | source | states |
|---|---|---|
| TagCodec.GranuleConstants | mtelib.h:17-31 | The granule sizes are 2^4 = 16 and 2^5 = 32, the alignment masks are 0xF and 0x1F, and the tag field's lowest bit weighs 1 << TAG_SHIFT = 2^56, below four high bits that end at 2^64 |
| TagCodec.PointerGetTag | mtelib.h:59-61 | The tag read from a pointer is the 4-bit value that, placed directly above the 56-bit address, makes up bits [59:0] of the pointer |
| TagCodec.Decompose | mtelib.h:59-61 | Every pointer is its high bits, its tag (what pointerGetTag extracts, at most MAX_TAG) and its 56-bit address put back together |
| TagCodec.ComposeFields | mtelib.h:52-61 | Putting together a high part, a tag and an address gives a 64-bit pointer from which the same three fields are read back |
| TagCodec.PointerSetTag | mtelib.h:52-57 | For a tag of at most MAX_TAG, the result carries exactly that tag and keeps the address and the four high bits of the input |
| TagCodec.SetTagOwnTag | mtelib.h:52-61 | Setting the tag a pointer already has returns the same pointer (get-then-set round trip) |
| TagCodec.SetTagTwice | mtelib.h:52-57 | A second pointerSetTag overrides the first |
| TagCodec.SameUntaggedBits | mtelib.h:52-57 | Two pointers that agree outside the tag field are each other with the tag replaced, so pointerSetTag changes nothing but the tag |
| TagCodec.AdvanceWithinAddressSpace | mtelib.h:86 | Adding a byte count that stays below 2^56 moves the address by that count and keeps the tag and the high bits |
| ExcludeMasks.ExcludeMaskAddTag | mtelib.h:46-49 | For a valid tag, exactly that tag joins the set of excluded tags, bits 16..63 are untouched, and the mask changes iff the tag was not already excluded |
| ExcludeMasks.AddTagIdempotent | mtelib.h:46-49 | Adding the same tag a second time leaves the mask as the first addition left it |
| ExcludeMasks.AddTagMeaning | mtelib.h:48 | OR-ing in `1 << tag` excludes `tag` and leaves whether every other tag is excluded as it was |
| ExcludeMasks.AddTagKeepsWidth | mtelib.h:46-49 | A mask that uses only the 16 tag bits still uses only them after a tag is added |
| ExcludeMasks.AllExcludedIffEveryTag | mtelib.h:38 | The low 16 bits are all set iff every one of the 16 tags is excluded |
| ExcludeMasks.ExcludeMaskAddPtrTag | mtelib.h:40-44 | GMI gives the same mask as excludeMaskAddTag with the pointer's own tag |
| ExcludeMasks.PtrTagMaskIsSingleton | test.c:79 | GMI applied to the empty mask excludes exactly the pointer's tag and so never excludes all tags |
| ExcludeMasks.FirstAllowedTag | mtelib.h:63-67 | The tag IRG picks is not excluded unless every tag it looked at was excluded, and it is the start tag when that one is allowed |
| ExcludeMasks.RunCovers | mtelib.h:63-67 | Every tag within `n` steps of the start of an excluded run of length `n` is excluded, which is why IRG's search can fail only on a full mask |
| ExcludeMasks.FullRunExcludesAll | mtelib.h:63-67 | If the search over all 16 tags finds every one excluded, the mask excludes every tag |
| ExcludeMasks.PointerSetRandomTag | mtelib.h:63-67 | IRG keeps the address and high bits. Unless all 16 tags are excluded, the new tag is not excluded. Any allowed tag the random source offers is the one used |
| ExcludeMasks.FreshTagDiffers | test.c:79-94 | Re-tagging any pointer with a pointer's tag excluded through GMI gives a tag different from that pointer's, both when the same pointer is re-tagged (line 79) and when a second one is (line 94) |
| ExcludeMasks.ExcludedTagNeverGenerated | test.c:104-115 | A tag excluded with excludeMaskAddTag is never produced by IRG, whatever the random source yields |
| TagMemory.SameReadBytes | mtelib.h:149-150 | Two equal byte ranges agree address by address |
| TagMemory.Pack | mtelib.h:149 | Loading eight bytes into a register and storing the register back gives the same eight bytes (little-endian) |
| TagMemory.Stg | mtelib.h:91 | STG sets the tag of the addressed granule to the tag of Xt. No other granule and no byte changes |
| TagMemory.St2g | mtelib.h:98 | ST2G sets the tags of the two granules from the address. Nothing else changes |
| TagMemory.Stzg | mtelib.h:119 | STZG tags the addressed granule and zeroes its 16 bytes. Nothing else changes |
| TagMemory.Stz2g | mtelib.h:126 | STZ2G tags two granules and zeroes their 32 bytes. Nothing else changes |
| TagMemory.Ldp | mtelib.h:149 | The two registers LDP loads hold the 16 bytes at the source address, the first register the lower eight |
| TagMemory.Stgp | mtelib.h:150 | STGP writes the two registers' 16 bytes to the granule and gives it the tag of the address register itself. Nothing else changes |
| TagMemory.St2gIsTwoStg | mtelib.h:90-99 | One ST2G leaves memory as two STGs on consecutive granules would |
| TagMemory.Stz2gIsTwoStzg | mtelib.h:118-128 | One STZ2G leaves memory as two STZGs on consecutive granules would |
| Regions.SplitIntoDoubleGranules | mtelib.h:88-95 | A granule-aligned size is one optional granule plus whole 32-byte double granules. This is why the size left after the peel is a multiple of 32 |
| Regions.TagStep | mtelib.h:97-99 | Tagging `n` more granules after the ones already tagged extends the tagged range and keeps the rest |
| Regions.ZeroStep | mtelib.h:125-128 | Zeroing the next bytes extends the zeroed range and keeps the bytes beyond it |
| Regions.CopyStep | mtelib.h:147-152 | Copying the next granule extends the copied prefix of the destination and keeps every byte beyond it |
| Regions.RegionTagged | mtelib.h:97-99 | Once the cursor has covered the region's granules, exactly the region's granules carry the tag and all other tags are kept |
| Regions.RegionZeroed | mtelib.h:125-128 | Once the cursor has covered the region's bytes, exactly the region's bytes are zero and all other bytes are kept |
| Regions.SourceGranuleOutside | mtelib.h:140-153 | A byte of a source range disjoint from the aligned destination lies in a granule that the copy does not tag |
| Regions.TagGranule | mtelib.h:90-93 | The optional STG step tags the granule under the cursor and extends the tagged range by one |
| Regions.TagDoubleGranule | mtelib.h:98 | One ST2G step extends the tagged range by two granules |
| Regions.ZeroGranule | mtelib.h:118-121 | The optional STZG step tags and zeroes the granule under the cursor |
| Regions.ZeroDoubleGranule | mtelib.h:126 | One STZ2G step tags and zeroes the next two granules |
| Regions.DoubleGranuleLoop | mtelib.h:97-99 | The loop `while (ptr < end)` with a 32-byte post-increment stops exactly at `end`. It issues one ST2G (or STZ2G) per 32 bytes and leaves the whole stretch tagged (and zeroed). With nothing left it changes nothing |
| Regions.MemoryTag | mtelib.h:79-100 | Exactly the region's granules carry the pointer's tag afterwards, and no byte changes. The stores issued are one STG when the size is an odd number of granules, then one ST2G per 32 bytes. A size of 0 writes nothing |
| Regions.MemoryTagAndZero | mtelib.h:110-129 | Exactly the region's granules carry the pointer's tag and exactly its bytes are zero. The stores issued are one optional STZG, then STZ2Gs. A size of 0 writes nothing |
| Regions.LdpStgp | mtelib.h:149-150 | One LDP/STGP pair moves the 16 source bytes to the destination granule and tags that granule with the destination's tag |
| Regions.CopyGranule | mtelib.h:148-150 | One loop iteration extends the copied and tagged prefix of the destination by one granule |
| Regions.CopyLoop | mtelib.h:147-152 | The loop stops exactly at `end` after one LDP/STGP per granule, with the whole destination copied and tagged |
| Regions.MemoryTagAndCopy | mtelib.h:140-153 | The destination holds the source's bytes and exactly its granules carry the destination pointer's tag. The source bytes and source tags are unchanged, nothing else changes, and a size of 0 writes nothing |
| Regions.RegionAccessible | test.c:68-74 | After a region operation, every byte of the region can be accessed through the pointer it was tagged with (the tag check passes) |
| Regions.OtherTagFails | test.c:125-130 | A pointer into the tagged region that carries any other tag fails the tag check |
| Regions.ZeroedRegionReadsZero | test.c:81-85 | After memoryTagAndZero the region reads back as zeros |
| Regions.CopyReadsBack | test.c:96-97 | After memoryTagAndCopy the destination reads back as the source's bytes, and the source still holds them |

## Left out

- The demo program test.c is left out: its mmap, prctl, printing and signal handling. Only its uses of the library appear, in the lemmas that cite it.
- The inline-assembly syntax, register constraints and clobbers are left out. Each instruction is modelled by its effect on the memory state. The post-index write-back is an explicit `+ 16` or `+ 32` on the cursor.
- Raising a tag-check fault is left out. `TagCheckPasses` states the condition the hardware checks, but loads in the model are not checked. In particular the LDP through a tagged `src` is unchecked.
- Alignment faults are left out. Every store requires a granule-aligned address instead.
- ExcludeMasks.PointerSetRandomTag: the hardware random source is a parameter `random`, the tag IRG starts its search from. The excluded tags set in GCR_EL1 by prctl are not modelled. When all 16 tags are excluded the result tag is not specified, and the model returns tag 0 without promising anything about it.
- Regions.MemoryTag: requires `ptr` to be granule-aligned. The header only asserts that `size` is. Its comment allows a misaligned `ptr`, which would tag more than `size` bytes, but STG faults on a misaligned address.
- Regions.MemoryTag, Regions.MemoryTagAndZero and Regions.MemoryTagAndCopy: require that the region stays below 2^56 (`WithinAddressSpace`). Then `ptr + size` does not carry into the tag, and the whole-pointer comparison `ptr < end` behaves as an address comparison.
- Regions.MemoryTagAndCopy: also requires the source range to stay below 2^56 and not to overlap the destination. The header requires neither. Overlapping copies are not modelled.
- The behaviour of builds with assertions disabled (NDEBUG) is left out. There a misaligned size lets the loops run past `end`.
- Concurrency and other threads retagging memory are left out.
- Pointer tags above MAX_TAG are left out. `pointerSetTag` with such a tag would OR extra bits into the high byte, but the header asserts this away, and the model requires it.
