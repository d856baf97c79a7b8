# Verified model of the C library and dynamic linker

This project models, in Dafny, the parts of the repository whose correctness is hardest to see from the
code, and proves what they compute.

* **Floating point on integers** (`Words`, `Ieee`, `LongDivision`, `Sqrt`, `Fmod`, `Remquo`, `FmaParts`,
  `Sticky`, `Fma`).  A double is its 64-bit pattern; a finite one has a value that is an integer number of
  2^-1074, so every statement is one about integers.  `Ieee.RoundMag` is round-to-nearest, ties-to-even, and
  is proved to deliver the nearest representable value; `sqrt`, `fmod`, `remquo` and `fma` are then proved to
  return the correctly rounded or exact result for every input, subnormal operands and results included.
* **Shortest decimal output** (`RyuIntrinsics`, `RyuDigits`, `RyuPowers`, `RyuRows`, `RyuTables`,
  `RyuCertificates`, `RyuD2d`).  The conversion returns, for every nonzero finite double, a decimal that rounds
  back to it; no decimal with a larger exponent does, and none with the same exponent is nearer.  Nothing is
  assumed of the power-of-5 tables: all 342 and 326 rows are here, and each is proved to deliver exact floors, by
  two neighbouring fractions between which both the row and the power it stands for lie.
* **The size-class allocator** (`Heap`).  Memory is a map from addresses to 64-bit words; the links of the free
  lists and the size headers lie in that map, beside the words that belong to the callers.  The invariant holds
  over every run of `malloc`, `free` and arbitrary stores of the callers into their own blocks.
* **The dynamic linker** (`LinkerObjects`, `Registry`, `Search`, `Initialisation`, `Loading`, `Finalisation`,
  `Symbols`, `Tls`).  Loaded objects are heap objects with the linker's own fields: the hash table of sonames, the
  breadth-first search list, constructors, the list of objects with its dependency counters, destructors, symbol
  resolution, and the static TLS layout.  Constructors and destructors are events appended to a trace.
* **Algorithms with a simple specification** (`Heapsort`, `Qsort`, `Streams`, `Printing`, `Strtoul`): the sort on
  raw bytes, the buffered write path under arbitrary short writes and errors, and the integer printer against
  its parser.

`dafny verify dfyconfig.toml` checks everything.

## Where the code departs from what it is for

The model follows the code.  For each departure an exact condition is proved, and a concrete input where the
departure depends on one.

* `swap` in `qsort` never advances its byte indices, so it exchanges the first bytes `size` times.  `qsort` meets
  its specification on all inputs if and only if records have at most one byte (`Qsort.WhenQsortSorts`, with the
  inputs of `Qsort.LargerFails`).  For an even size it leaves every input as it is (`Qsort.EvenSorts`); for an odd
  one it sorts every input whose records agree beyond their first bytes (`Qsort.OddSorts`).
* `fma` computes `x*y + z` in two roundings when z is zero.  That loses the sign of a negative result of at most
  half the smallest double when z is +0, and nothing else (`Fma.LosesSign`, `Fma.ZeroSignLost`).
* `malloc` adds 16 to the size without an overflow check.  The block returned holds the request if and only if
  the size is below 2^64 - 16 (`Heap.FitsSmall`, `Heap.WrappedRequest`).
* A TLS alignment of 0 makes the linker's rounding return 0, which puts the block at the thread control block
  itself and the next one over an earlier one; the total covers the new block if and only if the alignment is not 0
  and the sum does not wrap around (`Tls.NextTotalValue`, `Tls.ZeroAlignmentOverlaps`).  The area for all blocks is
  large enough if and only if its own sum does not wrap around (`Tls.AreaHolds`, `Tls.WrappedArea`).
* `create_object` sets the back link of the previous first object to that object itself.  From the list of all
  objects as loading leaves it, `remove_object` therefore takes off the first object and no other.  A removal in vain
  repairs the back link of the next object: in every state that removals and loads lead to from there, an object
  goes off exactly if it is the first or its back link has been repaired (`Loading.Loader.Unlist`,
  `Loading.Loader.Link`).
* `obj_ref` adds two to the reference count, on every object (`Finalisation.Linker.Ref`), so finalisation never
  destroys one.
* With the `0` flag and two digits or more in a field that needs padding, the value `print_integer` returns is not
  the number of bytes it wrote (`Printing.CountIsLength`, `Printing.CountMissed`).
* `strtoul` notices an overflow only when a step makes the accumulator smaller; `strtol` also when the accumulator ends
  up beyond the limits of `long`.  Both multiply by ten in every base.  `Strtoul.WhenStrtoulRight` and
  `Strtoul.WhenStrtolRight` say for every text, base and sign exactly when value and error are those of section 7.22.1.4
  of ISO/IEC 9899:2011; `Strtoul.MissedOverflow`, `Strtoul.MissedOverflowLong` and `Strtoul.WrongBase` are calls that go
  wrong.
* The end pointer of both departs from that section in two ways.  The standard has the `0` of a hexadecimal prefix read
  when no digit follows, and the code reads nothing (`Strtoul.BarePrefix`).  And where there is no number the standard
  has the pointer that was passed stored, while the code stores it behind the leading spaces (`Strtoul.SpacesPassed`).
  The same two lemmas show that it is right for all other texts, and only for those (`Strtoul.EndsWell`).

## Model

| member | source | states |
|---|---|---|
| Ieee.RoundNearest | libc/musl-generic-math/fma.c:150-194 | What the model calls rounding is rounding: no representable magnitude is nearer to the exact value than the one chosen, and of two equally near ones the chosen one has the even significand (sections 4.3.1 and 5.4.1 of IEEE 754-2008) |
| Ieee.RoundRepresentable | libc/musl-generic-math/fma.c:150-194 | A rounded magnitude always has at most 53 significant bits |
| Ieee.MagBitsMag | libc/musl-generic-math/fma.c:23-39 | Every representable magnitude in range is the value of exactly the bit pattern assigned to it; with `Ieee.MagRepresentable`, patterns and magnitudes correspond one to one |
| Ieee.MagRepresentable | libc/musl-generic-math/fma.c:23-39 | The value of every finite pattern is representable and leads back to the pattern without its sign |
| Ieee.MagOrder | libc/musl-generic-math/fmod.c:19-23 | Comparing patterns without their sign bits compares magnitudes, across subnormals and normals |
| FmaParts.Clz64 | libc/musl-generic-math/fma.c:6-16 | The halving search returns 64 minus the bit length of every nonzero word |
| FmaParts.Mul | libc/musl-generic-math/fma.c:41-52 | The two result words are the exact 128-bit product of any two 54-bit operands: the middle sum and the carries lose nothing |
| FmaParts.Scalbn | libc/musl-generic-math/scalbn.c:5-33 | For every double and every power of two, the scaled value: exact above the smallest unit, rounded exactly once below it in spite of the multiplications in several steps, infinite beyond the range; infinities and NaNs come back as they are |
| Fma.Normalize | libc/musl-generic-math/fma.c:23-39 | Every nonzero finite double, subnormals included, is decoded as an even 54-bit significand times a power of two; zeros and non-finite values are recognised by their exponents |
| Fma.Align | libc/musl-generic-math/fma.c:77-109 | After alignment the two 128-bit numbers stand for the exact product and addend at one common unit: one of them exact and even, the other exact or rounded to odd, or a single bit in place of a product that is far smaller |
| Fma.AlignedSum | libc/musl-generic-math/fma.c:77-130 | The sum or difference of aligned numbers stands for the exact sum or difference, also when the sticky operand is subtracted, is exact whenever it fits one word, and has the sign of the exact one |
| Fma.Combine | libc/musl-generic-math/fma.c:111-130 | The two-word addition, subtraction and negation compute the exact sum or absolute difference, and the sign flips exactly when the addend is the larger |
| Fma.TakeTop | libc/musl-generic-math/fma.c:132-148 | The 63 bits kept are the exact sum rounded to odd, whichever shift produced them |
| Sticky.StandingShift | libc/musl-generic-math/fma.c:132-148 | Shifting a sticky sum so that 63 bits remain rounds the exact sum to odd |
| Sticky.RneOdd | libc/musl-generic-math/fma.c:150-194 | A number rounded to odd rounds to nearest, two or more bits up, exactly as the infinitely precise number does |
| Fma.RoundedSum | libc/musl-generic-math/fma.c:150-194 | The correctly rounded result is determined by the 63 bits: a 53-bit rounding in the normal range, a rounding to units of 2^-1074 below it |
| Fma.SmallestNormal | libc/musl-generic-math/fma.c:159-168 | The detour through a conversion to float delivers the smallest normal number, exactly |
| Fma.RoundTo52 | libc/musl-generic-math/fma.c:171-184 | Setting an extra top bit, converting and removing it again rounds to 52 bits, once |
| Fma.BelowNormal | libc/musl-generic-math/fma.c:156-184 | Results just below the normal range are rounded once, to nearest |
| Fma.FarBelowNormal | libc/musl-generic-math/fma.c:185-194 | Results further below are rounded once in spite of the conversion and the scaling |
| Fma.FuseNonzero | libc/musl-generic-math/fma.c:72-194 | For nonzero finite operands the result is the correctly rounded exact x*y + z, and an exact zero is recognised if and only if the exact value is zero |
| Fma.Fma | libc/musl-generic-math/fma.c:54-195 | For all doubles: the correctly rounded exact value; a zero of the right sign when that is zero; the standard's results for infinities and NaNs; and the result differs from the correctly rounded one if and only if the operands are those of `Fma.LosesSign` |
| Fma.SignLost | libc/musl-generic-math/fma.c:64-68 | The operands for which a sign is lost are exactly those whose negative result rounds to zero and meets a positive zero |
| Fma.ZeroSignLost | libc/musl-generic-math/fma.c:66-68 | A concrete input on which the sign of zero is lost |
| Fma.SpecialKnown | libc/musl-generic-math/fma.c:64-71 | Concrete operands: infinity times zero and infinity less infinity give NaN, and other infinities keep their signs |
| Sqrt.NormalizeSubnormal | libc/musl-generic-math/sqrt.c:106-119 | Every subnormal is brought to a 53-bit significand with the right exponent, whichever result the hardware gives for the shift by 32 |
| Sqrt.ShiftBy32Masked | libc/musl-generic-math/sqrt.c:115-119 | The mask of line 119 removes whatever a shift by 32 may deliver |
| Sqrt.RootHighWord | libc/musl-generic-math/sqrt.c:126-142 | The first loop keeps the recurrence of the header comment: partial root and remainder account exactly for the radicand |
| Sqrt.RootLowWord | libc/musl-generic-math/sqrt.c:144-161 | The second loop keeps the recurrence through two-word comparisons, borrows and carries, down to the last bit |
| Sqrt.RootFloor | libc/musl-generic-math/sqrt.c:126-161 | The 54-bit root Q satisfies Q^2 <= 4N < (Q+1)^2 for the scaled input N, and the remainder vanishes exactly for perfect squares |
| Sqrt.OddSquare | libc/musl-generic-math/sqrt.c:163-178 | An odd root is never exact, so no tie can arise |
| Sqrt.RoundedRoot | libc/musl-generic-math/sqrt.c:163-178 | The final significand R satisfies (2R-1)^2 < 4N < (2R+1)^2 |
| Sqrt.RootNearest | libc/musl-generic-math/sqrt.c:163-185 | The inequality on significands means that no double is as near to the root |
| Sqrt.Sqrt | libc/musl-generic-math/sqrt.c:84-186 | For every positive finite double the result is the unique nearest double to the root (section 5.4.1 of IEEE 754-2008); zeros and +infinity return themselves; NaNs and negative numbers give NaN |
| LongDivision.Normalize | libc/musl-generic-math/fmod.c:25-39 | Normalisation brings every finite nonzero operand, subnormals included, to a 53-bit significand with the exponent that keeps its value |
| LongDivision.PackSubnormal | libc/musl-generic-math/fmod.c:59-67 | The final right shift of a subnormal result loses no bits |
| Fmod.Reduce | libc/musl-generic-math/fmod.c:41-56 | The subtract-and-shift loop computes the remainder of the scaled significands, and returns early exactly when it is zero |
| Fmod.Fmod | libc/musl-generic-math/fmod.c:5-69 | For finite x and nonzero finite y the result is exactly sign(x) * (\|x\| mod \|y\|) (section 7.12.10.1 of ISO/IEC 9899:2011); an infinite divisor returns x; the other cases are NaN |
| Remquo.Divide | libc/musl-generic-math/remquo.c:38-60 | The division loop computes quotient and remainder of the scaled significands, the quotient modulo 2^32 |
| Remquo.QuotientIsNearest | libc/musl-generic-math/remquo.c:76-79 | No multiple of the divisor is nearer than the one chosen; of two equally near ones the quotient chosen is even |
| Remquo.RoundsUpCorrect | libc/musl-generic-math/remquo.c:74-79 | Comparing exponents, and doubles only when they are adjacent, decides whether twice the remainder exceeds the divisor, ties by the parity of the quotient |
| Remquo.SubtractExact | libc/musl-generic-math/remquo.c:76-79 | The floating subtraction of the divisor is exact where it is performed |
| Remquo.FarBelow | libc/musl-generic-math/remquo.c:38-43 | A dividend whose exponent is two below the divisor's has quotient 0 |
| Remquo.Remquo | libc/musl-generic-math/remquo.c:5-83 | For finite x and nonzero finite y the result is exactly x - n*y for n the nearest integer to x/y, ties to even; a zero result has the sign of x; and quo has the sign of x/y and the low 31 bits of n (section 5.3.1 of IEEE 754-2008) |
| RyuIntrinsics.Umul128 | private/ryu/d2s_intrinsics.h:24-52 | The full 128-bit product of any two words: none of the intermediate sums overflows |
| RyuIntrinsics.MulShiftFloor | private/ryu/d2s_intrinsics.h:152-156 | The shifted 128-bit arithmetic is one floor, m * multiplier / 2^j modulo 2^64, for every m, row and j >= 64 |
| RyuIntrinsics.InverseOfFive | private/ryu/d2s_intrinsics.h:85-97 | Multiplying by the inverse of 5 modulo 2^64 gives a small result exactly for multiples of 5, and then divides |
| RyuIntrinsics.Pow5Factor | private/ryu/d2s_intrinsics.h:85-97 | The largest k with 5^k dividing v, for every nonzero v |
| RyuIntrinsics.MultipleOfPowerOf5 | private/ryu/d2s_intrinsics.h:99-103 | True exactly when 5^p divides the value |
| RyuIntrinsics.MultipleOfPowerOf2Correct | private/ryu/d2s_intrinsics.h:105-111 | The mask test is divisibility by 2^p |
| RyuIntrinsics.LowRemainderCorrect | libc/ryu/d2s.c:73-73 | Remainders computed on truncated 32-bit words are the remainders of the 64-bit values |
| RyuDigits.RemoveDigits | libc/ryu/d2s.c:119-163 | The loops that remove one digit at a time return the number of removed digits and the rounded output of the closed form |
| RyuDigits.RemoveDigitsFast | libc/ryu/d2s.c:164-199 | The path that removes two digits at once returns the same pair as the one-digit loop |
| RyuDigits.TwoDigits | libc/ryu/d2s.c:165-181 | Removing two digits at once is removing one digit twice, and the test against 50 is the test of the last of them against 5 |
| RyuDigits.Shortest | libc/ryu/d2s.c:114-199 | No decimal with fewer digits lies in the interval |
| RyuDigits.ResultInInterval | libc/ryu/d2s.c:114-199 | The result lies in the interval, rounding up included |
| RyuDigits.Nearest | libc/ryu/d2s.c:159-198 | The result is the nearest decimal of its length in the interval, exact halves to even |
| RyuPowers.LogsAreFloors | private/ryu/common.h:67-81 | The integer approximations are exactly the floors of log10(2^e) and log10(5^e) throughout the ranges that the comments promise |
| RyuRows.SameFloors | libc/ryu/d2s.c:61-93 | Between two fractions that are neighbours among those with denominators below 2^55, every number has the same floors of its first 2^55 multiples |
| RyuRows.FitsAgrees | private/ryu/d2s_intrinsics.h:152-156 | A row that lies between the same two neighbours as the power it stands for gives the exact floor for every operand of 55 bits |
| RyuRows.ExactFrom | private/ryu/d2s_intrinsics.h:152-156 | What is exact at one shift is exact at every larger one, which is why one pair of neighbours serves all exponents that use a row |
| RyuCertificates.InvRows | private/ryu/d2s_full_table.h:29-201 | Each of the 342 rows gives the exact floors of multiples of 2^(pow5bits(q) + 6) / 5^q |
| RyuCertificates.SplitRows | private/ryu/d2s_full_table.h:203-367 | Each of the 326 rows gives the exact floors of multiples of 2^7 * 5^i / 2^pow5bits(i) |
| RyuD2d.ReadsBackInterval | libc/ryu/d2s.c:48-54 | The decimals that round to a double are those between its midpoints, which belong to it exactly when its significand is even |
| RyuD2d.InIntervalReadsBack | libc/ryu/d2s.c:48-61 | Ryu's scaled interval is exactly the set of decimals that read back as the double |
| RyuD2d.FlagsOverTen | libc/ryu/d2s.c:69-85 | The flags for a nonnegative exponent say what step 4 needs about which bounds are integers, although factors of 5 are counted only up to q = 21 |
| RyuD2d.NoTwentyThird | libc/ryu/d2s.c:69-72 | The significands are too short to hold 23 factors of 5 where the code does not look for them |
| RyuD2d.FlagsOverTwo | libc/ryu/d2s.c:94-111 | The flags for a negative exponent count the factors of 2 of all three values correctly |
| RyuD2d.TableAccess | libc/ryu/d2s.c:64-93 | Every exponent of a double leads to an existing table row, the last 51 rows of the first table never used, and to a shift between 118 and 125 |
| RyuD2d.InvRow | libc/ryu/d2s.c:64-68 | For every nonnegative exponent e of a double, the row and the shift chosen turn m into the floor of m * 2^e / 10^q, for every 55-bit m |
| RyuD2d.SplitRow | libc/ryu/d2s.c:88-93 | For every negative exponent -e of a double, they turn m into the floor of m * 5^(e-q) / 2^q |
| RyuD2d.MulShiftAll64 | private/ryu/d2s_intrinsics.h:158-175 | On an exact row, the three products are the floors of the scaled double and of the scaled midpoints on either side of it |
| RyuD2d.ScaleDown | libc/ryu/d2s.c:61-85 | Step 3 for a nonnegative exponent hands step 4 bounds and flags from which it delivers the shortest decimal |
| RyuD2d.ScaleUp | libc/ryu/d2s.c:86-112 | The same for a negative exponent |
| RyuD2d.Optimal | libc/ryu/d2s.c:114-205 | Step 4 on the right floors delivers the shortest decimal that reads back, and the nearest of those |
| RyuD2d.D2d | libc/ryu/d2s.c:42-206 | For every nonzero finite double, with the tables as they are: the decimal rounds back to it, no decimal with a larger exponent does, and none with this exponent is nearer |
| RyuD2d.GenericBinaryToDecimal | libc/ryu/d2s.c:208-242 | Sign, kind and zero are decoded from the bits, and every other double yields its shortest decimal |
| RyuD2d.RoundTrip | libc/ryu/d2s.c:208-242 | The decimal that is printed for a double reads back as no other double |
| RyuD2d.GridIsMag | libc/ryu/d2s.c:226-232 | The values between which decimals are compared are the values of doubles |
| Heap.HugeAlignValue | private/stdlib.p.h:25-25 | Rounding up to whole pages, and 0 exactly when that does not fit in 64 bits |
| Heap.BucketFits | private/stdlib.p.h:26-27 | The bucket is the smallest power of two that holds the size, from 8 bytes up to a page |
| Heap.TakeKeeps | libc/stdlib/malloc.c:34-38 | Popping a list and overwriting the link with the size keeps the heap invariant |
| Heap.CarveKeeps | libc/stdlib/malloc.c:40-69 | Cutting a fresh page keeps the invariant: all blocks but the first become one list |
| Heap.MapKeeps | libc/stdlib/malloc.c:17-30 | A new large block keeps the invariant |
| Heap.ReleaseKeeps | libc/stdlib/free.c:18-22 | Overwriting a live block's header with a link keeps the invariant, and the block goes back to the list of its size |
| Heap.UnmapKeeps | libc/stdlib/free.c:13-16 | Giving a large block back to the kernel keeps the invariant |
| Heap.StoreKeeps | private/stdlib.p.h:34-41 | Whatever a caller writes into its own words changes no link and no header |
| Heap.HeaderTells | libc/stdlib/free.c:11-19 | The header of a live block leads `free` to the bucket or to the mapping length it came from |
| Heap.FitsSmall | libc/stdlib/malloc.c:13-38 | A small block holds the request and its header, 16-aligned, if and only if the size with the header did not wrap around |
| Heap.FitsHuge | libc/stdlib/malloc.c:17-30 | A large block always holds the request and its header |
| Heap.NeverOverlap | libc/stdlib/malloc.c:11-76 | No two blocks of the heap, live, free or large, share a byte |
| Heap.BlocksDisjoint | private/stdlib.p.h:26-27 | Blocks of pages, of any two sizes, never overlap |
| Heap.Conservation | libc/stdlib/malloc.c:40-69 | Per bucket, live and free blocks together are the pages cut for it times the blocks in a page |
| Heap.WrappedRequest | libc/stdlib/malloc.c:13-32 | A concrete request that wraps around and gets a block smaller than its own header |
| Heap.Allocator.Malloc | libc/stdlib/malloc.c:11-76 | Over every state: null exactly when memory was needed and refused; otherwise a block that was in nobody's hands, the first of its list where there is one, the start of the new region where memory is mapped; the invariant kept, every word of every other caller unchanged, and the request fits if and only if it did not wrap |
| Heap.Allocator.Carve | libc/stdlib/malloc.c:54-68 | The loop links every block of the page to the next and the last one to nothing, and touches nothing outside the page |
| Heap.Allocator.Free | libc/stdlib/free.c:7-23 | A small block becomes the head of the list of its bucket, and only its header changes; of a large one the whole region leaves memory, so that the kernel may hand it out again, and every word outside it stays |
| Heap.Allocator.Store | private/stdlib.p.h:34-41 | Stores of callers into their own blocks keep the heap valid |
| Heap.Allocator.StoreByte | private/stdlib.p.h:34-41 | So do stores of single bytes, after which every other byte of the heap is what it was |
| Registry.HashBlob | rtld/object.c:58-67 | The hash of a name, byte by byte |
| Registry.HashStep | rtld/object.c:58-67 | The hash of the empty name, and what one more byte does: the product modulo 2^64 first, then the exclusive or |
| Registry.HashOfA | rtld/object.c:58-67 | The hash of the name "a" is 0xaf63bd4c8601b7be |
| Registry.Push | rtld/object.c:109-113 | Linking an object in front of its bucket makes it the first of its chain, and keeps all chains linked in both directions and in their buckets |
| Registry.MoveChain | rtld/object.c:106-116 | Moving a chain enters exactly its objects into the new table; those that share a bucket again stand there in the opposite order, and the order of the objects moved before stays |
| Registry.Rehash | rtld/object.c:103-117 | The new table holds exactly the objects of the old one, with the order of every old chain reversed |
| Registry.AllReversedMeans | rtld/object.c:103-117 | Of two objects of one old chain that share a new one, the later comes first: which of two objects with the same soname is found changes with every growth |
| Registry.Unlink | rtld/object.c:158-162 | Unlinking removes exactly one object from its chain and keeps the rest linked |
| Registry.ObjectTable.GetObject | rtld/object.c:69-79 | Non-null if and only if an object with that soname is registered, and then the first of its chain that has it |
| Registry.ObjectTable.MaybeExpandObjects | rtld/object.c:93-123 | There is room afterwards unless memory ran out: 8 buckets at first, then twice as many, with the same registered objects in reversed chains |
| Registry.ObjectTable.Insert | rtld/object.c:571-588 | Exactly the new object is added, as the first of its chain, or nothing when memory ran out; the load stays at three quarters |
| Registry.ObjectTable.RemoveObject | rtld/object.c:157-165 | Exactly this object is removed; every chain keeps its order |
| Search.Append | rtld/object.c:828-834 | A new dependency at the end of the queue keeps the list duplicate-free, reachable and in order of distance |
| Search.Complete | rtld/object.c:818-837 | A finished walk lists everything that can be reached, at its least distance |
| Search.OnPath | rtld/object.c:826-836 | On an acyclic graph no path leads back to the root, so the root, which is never marked, is not listed twice |
| Search.Searcher.BuildSearchList | rtld/object.c:818-837 | The threaded list holds exactly the objects reachable from the root, each once, in order of least distance; of two listed objects the one comes first that is named first, by an earlier listed object or by an earlier dependency of the same one, which determines the list; and the marks stay below the next id (System V gABI chapter 5, Shared Object Dependencies) |
| Initialisation.Combine | rtld/object.c:993-995 | Successive initialisations of dependencies compose: no object twice, each after its dependencies |
| Initialisation.Initialiser.InitDependencies | rtld/object.c:993-995 | The loop initialises all dependencies, each object once and after its own |
| Initialisation.Initialiser.CallInitFunctions | rtld/object.c:988-1001 | On an acyclic graph the call terminates; the trace gains the constructors of each newly initialised object exactly once, in an order in which each comes after all its dependencies (System V gABI chapter 5, Initialization and Termination Functions), and which is the depth-first one |
| Initialisation.DepthFirstMeans | rtld/object.c:993-1000 | What determines that order: each object stands by the path to it that takes the earliest dependency wherever two paths part, earlier paths first, and a path before its own beginnings |
| Initialisation.InitEventsAt | rtld/object.c:972-998 | One object's constructors by position: the single function first, then the array in ascending order |
| Initialisation.PreinitAt | rtld/object.c:972-991 | The preinit array, in ascending order |
| Initialisation.ExactlyReachable | rtld/object.c:988-1001 | The objects initialised are exactly those that are reachable and were not initialised before, and all reachable ones are initialised afterwards |
| Initialisation.RanSelf | rtld/object.c:991-998 | The root object's preinit functions come before everything else |
| Finalisation.EdgesDrop | rtld/object.c:1573-1575 | Decrementing the counters of one object's dependencies takes away exactly its edges, with multiplicity |
| Finalisation.FreeObject | rtld/object.c:1560-1588 | As long as an object is left on an acyclic graph, one without unterminated dependents is left |
| Finalisation.AllTerminated | rtld/object.c:1562-1587 | A pass that finds nothing to do leaves nothing to do |
| Finalisation.Extend | rtld/object.c:1565-1584 | An object whose counter is zero may be finalised next: all its dependents are done |
| Finalisation.Linker.Terminate | rtld/object.c:1566-1580 | Finalising one object runs the entries of its array from the last to the first and then its single function, each at its place in the trace; it adds one reference to this object alone and keeps every counter equal to the number of dependency edges from unterminated objects |
| Finalisation.Linker.Pass | rtld/object.c:1562-1584 | A pass keeps the counters exact, finalises whatever it may in the order of the list, and either terminates another object or proves that none is left to terminate |
| Finalisation.Linker.RunFiniFunctions | rtld/object.c:1560-1588 | From counters that are exact, on an acyclic graph it terminates with every object finalised exactly once, each after all of its dependents (System V gABI chapter 5, Initialization and Termination Functions), in the passes and at the places of the trace that the next two rows describe |
| Finalisation.AllRunMeans | rtld/object.c:980-986 | The trace by position: after what it held before, for one object after the other the array from the last entry to the first, then the single function, and nothing else |
| Finalisation.WhyLate | rtld/object.c:1562-1584 | An object is finalised in a later pass only because one that depends on it was finalised in the same pass before it, or in the pass before at a later place of the list; with the order of the list inside each pass this determines the order of finalisation |
| Finalisation.Linker.Ref | rtld/object.c:1527-1530 | One call adds two references |
| Loading.Loader.CreateObject | rtld/object.c:565-659 | Over every load on an acyclic graph: objects enter the front of the list, each once and before its dependencies, dependencies are loaded from first to last if their name finds nothing, and each counter equals the number of dependency edges recorded so far, with multiplicity |
| Loading.ListedByMeans | rtld/object.c:565-659 | What determines the list: each new object stands by the path to it that takes the earliest dependency wherever two paths part, later paths in front of earlier ones, and in front of their own beginnings |
| Loading.ReadyToFinalise | rtld/object.c:657-658 | When no load is under way, every counter equals the number of dependency edges from loaded objects: what finalisation needs |
| Loading.ExactlyLoaded | rtld/object.c:637-659 | A load registers exactly what the object reaches, beside what was there before |
| Loading.LoadAndFinalise | rtld/object.c:1560-1588 | Nothing assumed about counters: after loading a root object, finalisation runs the destructors of exactly the objects it reaches, once each, dependents first, in passes over the list as loading leaves it |
| Loading.Loader.Link | rtld/object.c:566-569 | A new object becomes the first of the list, whatever was removed before, and every object behind it has a back link to the one before or still to itself |
| Loading.Loader.Unlist | rtld/object.c:176-179 | In every state that loads and removals lead to, removal takes an object off the list exactly if it is the first one or its back link leads to the one before it, and leaves the back link of the next object right; all other objects stay in their order |
| Symbols.RoundIs | rtld/object.c:719-723 | The shifts and masks move the four bits that leave at the top back in at bit 4, and keep the hash below 2^28 |
| Symbols.ComputeElfHash | rtld/object.c:713-727 | The hash of a name, below 2^28 (System V gABI chapter 5, Hash Table) |
| Symbols.ShortHash | rtld/object.c:713-727 | The hash of a name of at most five bytes is their number in base 16, the first byte leading |
| Symbols.FoldedHash | rtld/object.c:713-727 | The hash of the name "syscall", whose top bits come back in, is 0xb09985c |
| Symbols.ScanFinds | rtld/object.c:729-746 | The reference lookup returns the first symbol of that name, and fails only when there is none |
| Symbols.GetSymbolInObject | rtld/object.c:729-746 | Over a well-formed hash section with unique names, following one chain finds what a linear scan of the symbol table finds |
| Symbols.FirstFinds | rtld/object.c:774-796 | The reference search returns the definition with the least place in scope, and fails only when there is none |
| Symbols.FirstAppend | rtld/object.c:774-796 | Searching two lists one after the other is searching their concatenation |
| Symbols.SearchList | rtld/object.c:787-796 | One loop ends with the first strong definition of its list, else keeps the first weak candidate of all |
| Symbols.ResolveSymbol | rtld/object.c:752-804 | The method, with its two loops, resolves as the reference does whose order of preference the next row gives |
| Symbols.Preference | rtld/object.c:752-804 | A real strong symbol of a symbolic object is the answer whatever the scope holds; else the first strong definition in scope; else a real symbol of a symbolic object; else the first weak definition; else the symbol itself if it is real; and there is none exactly when there is neither a definition nor a real symbol |
| Symbols.DefinesMeans | rtld/object.c:729-796 | What an object in scope defines: the first symbol of that name, if it is real and there is a hash section, weak or strong by its binding |
| Symbols.RealSourceMeans | rtld/object.c:748-768 | Which symbols count as real: those with a section or a value |
| Tls.PowerOfTwoTest | rtld/object.c:673-673 | `x & (x - 1)` vanishes exactly for powers of two |
| Tls.RoundUpValue | rtld/object.c:681-681 | The rounding gives the next multiple of a power of two, and 0 for alignment 0 |
| Tls.NextTotalValue | rtld/object.c:681-681 | The new total is an aligned one that covers the new block below the old ones, and the next such, if and only if the alignment is not 0 and the sum does not wrap around; and what it is otherwise |
| Tls.ZeroAlignmentOverlaps | rtld/object.c:670-683 | Three concrete blocks, the second with alignment 0: the second starts at the control block, and the third where the first does |
| Tls.AreaHolds | rtld/object.c:1006-1007 | The area size covers the total and the control block if and only if nothing wraps around |
| Tls.WrappedArea | rtld/object.c:1006-1007 | A concrete total for which an area of 32 bytes is asked for |
| Tls.StaticTls.Assign | rtld/object.c:667-683 | Accepted exactly for alignments that are 0 or a power of two; the layout is extended by a disjoint, aligned block if and only if the alignment is not 0 and the sum does not wrap around; the block lies below every high enough control block if and only if the alignment is not 0; and the largest alignment is kept |
| Tls.StaticTls.AllocateTcb | rtld/object.c:1003-1014 | The area has room for the total and the control block if and only if the sum does not wrap around; then the control block takes the first place above the total that is aligned as the strictest block and itself ask, the area ends at the first aligned place behind it, and all blocks lie in it below the control block, pairwise disjoint and aligned as requested (section 3 of ELF Handling For Thread-Local Storage, variant II) |
| Tls.BelowTcb | rtld/object.c:1003-1014 | A block at an aligned distance below an aligned control block is aligned |
| Heapsort.SiftHeap | libc/stdlib/qsort.c:31-46 | Sinking restores the heap order from start on |
| Heapsort.RunSorts | libc/stdlib/qsort.c:23-47 | From a heap with the maxima already behind it, the merged loop ends in ascending order |
| Heapsort.HeapsortCorrect | libc/stdlib/qsort.c:19-48 | With a swap that exchanges records the algorithm sorts: ascending and a permutation, for every comparator that is a total preorder (section 7.22.5.2 of ISO/IEC 9899:2011) |
| Qsort.Swap | libc/stdlib/qsort.c:6-17 | The byte loop exchanges the first bytes of two records when the size is odd, and nothing when it is even |
| Qsort.SiftDown | libc/stdlib/qsort.c:31-46 | The inner loop on the byte array refines the specification on byte sequences |
| Qsort.Qsort | libc/stdlib/qsort.c:19-48 | The whole sort on the byte array refines that specification, and terminates |
| Qsort.EvenSorts | libc/stdlib/qsort.c:6-48 | For an even size the input comes out sorted if and only if it went in sorted |
| Qsort.OddRun | libc/stdlib/qsort.c:19-48 | For an odd size and records that agree beyond their first bytes, the byte algorithm is the heapsort |
| Qsort.OddSorts | libc/stdlib/qsort.c:6-48 | For every odd size, an input whose records agree beyond their first bytes comes out ascending and permuted |
| Qsort.LargerFails | libc/stdlib/qsort.c:6-48 | For every size above 1, a concrete input that stays unsorted or whose records are torn apart |
| Qsort.WhenQsortSorts | libc/stdlib/qsort.c:19-48 | The sort meets its specification on all inputs if and only if records have at most one byte |
| Streams.Stream.Drain | libc/stdio/fflush.c:11-20 | Retrying short writes delivers pending bytes in order and loses none, also when it fails half way |
| Streams.Stream.Flush | libc/stdio/fflush.c:8-34 | A flush neither loses, repeats nor reorders bytes; on success nothing is pending; and with nothing pending nothing is written |
| Streams.Stream.DoWrite | libc/stdio/fwrite.c:16-52 | Exactly the reported prefix is accepted, after everything accepted before: what there is room for, or up to the first newline on a line-buffered stream; as long as there is room and no newline comes, nothing is written to the descriptor; and the error flag is raised exactly by a failed flush |
| Streams.Stream.WriteFlat | libc/stdio/fwrite.c:54-70 | Delivered bytes followed by pending bytes grow by exactly the bytes reported accepted, under any script of short writes and errors; the call raises the error flag if and only if it falls short; without errors a line-buffered stream leaves no newline pending |
| Streams.Stream.FWrite | libc/stdio/fwrite.c:72-74 | The number of whole items accepted; all of them without errors |
| Printing.Sink.Write | libc/stdio/vsnprintf.c:12-21 | The buffer keeps the prefix that fits of everything handed over, and nothing outside it is touched |
| Printing.Sink.Finish | libc/stdio/vsnprintf.c:26-31 | For n > 0 the buffer is the NUL-terminated prefix of length min(n-1, total), for any sequence of writes |
| Printing.PrintPadding | libc/stdio/do_printf.c:55-66 | Chunks of at most 256 bytes add up to the requested number of padding bytes |
| Printing.PrintInteger | libc/stdio/do_printf.c:68-86 | Padding, sign, zeros and digits come out in the order of the specified text |
| Printing.PrintUdec | libc/stdio/do_printf.c:88-98 | The digits made from the back of a 24-byte buffer, which is never overrun, are the decimal digits of the value |
| Printing.DigitsAre | libc/stdio/do_printf.c:89-95 | Every digit is the one of its place, and the first one is not a zero |
| Printing.PrintSdec | libc/stdio/do_printf.c:100-112 | The sign and the magnitude of every signed value, the most negative included: a plus exactly for a nonnegative value with the `+` flag, a minus exactly for a negative one, a space in front exactly for the space flag alone; left-justified text has no padding in front, other text none behind |
| Printing.SignedText | libc/stdio/do_printf.c:68-112 | The whole text for every specification: sign, precision, and the field filled on the right side, with spaces exactly, and with zeros exactly if the number has one digit (section 7.21.6.1 of ISO/IEC 9899:2011) |
| Printing.WordDigits | libc/stdio/do_printf.c:89-95 | A 64-bit value has at most 20 digits |
| Printing.CountIsLength | libc/stdio/do_printf.c:68-86 | The returned count is the largest of field width, digits and precision with the sign; it is the number of bytes written if and only if the `0` flag does not meet two or more digits in a field that needs padding |
| Printing.CountMissed | libc/stdio/do_printf.c:68-86 | A concrete call that prints four bytes and reports five |
| Strtoul.ReadDigits | libc/stdlib/strtoul.c:36-56 | In every base the loop takes exactly the longest run of digits |
| Strtoul.Strtoul | libc/stdlib/strtoul.c:8-71 | Value, end pointer and error on every NUL-terminated string in every base, the invalid ones included: spaces, sign, prefix, digits, and where the scan ends |
| Strtoul.Strtol | libc/stdlib/strtol.c:8-79 | The same for the signed conversion, cut off at the two ends of `long` |
| Strtoul.LastDigit | libc/stdlib/strtoul.c:36-48 | Concrete texts: digits and letters of either case count in base 36, and the last letter not in base 35 |
| Strtoul.BaseOfText | libc/stdlib/strtoul.c:18-34 | Concrete texts with the prefixes of bases 16 and 8, of either case, with and without a base given |
| Strtoul.SpacesSkipped | libc/stdlib/strtoul.c:9-14 | Concrete texts: the six characters of white space and a plus are passed, their neighbours are not |
| Strtoul.DecimalFits | libc/stdlib/strtoul.c:50-52 | Digits whose value in tens fits are accumulated exactly and never reported as an overflow |
| Strtoul.ShrinksIs | libc/stdlib/strtoul.c:50-52 | The overflow test fires exactly when some leading part of the number is, modulo 2^64, smaller than that part without its last digit |
| Strtoul.WhenRight | libc/stdlib/strtoul.c:36-66 | The result is exact or reported out of range if and only if the number fits or one of its leading parts shows the overflow |
| Strtoul.WhenRightLong | libc/stdlib/strtol.c:51-74 | In base ten the signed result is exact or reported out of range if and only if the number fits, or shows the overflow, or ends up beyond the limit in spite of wrapping around |
| Strtoul.TensDiffer | libc/stdlib/strtoul.c:51-51 | In a base other than ten, digits taken in tens give a number on the one side of their value, equal only if no digit but the last counts |
| Strtoul.WhenRightInBase | libc/stdlib/strtoul.c:18-66 | In a base other than ten the result is right if and only if no digit but the last counts, or the digits, taken in tens, wrap around onto the number or visibly when it is too large as well |
| Strtoul.WhenRightLongInBase | libc/stdlib/strtol.c:18-74 | The same of `strtol` with either sign, whose limit makes more of the wrapped numbers visible |
| Strtoul.WhenStrtoulRight | libc/stdlib/strtoul.c:8-71 | For every text and every base that is accepted (base 1 included, of which the standard does not speak): value and error of the call are those of the standard if and only if its digits, in the base in force, meet the conditions above; and the end pointer is if and only if no hexadecimal prefix stands without a digit behind it and a number follows the leading spaces, if there are any |
| Strtoul.WhenStrtolRight | libc/stdlib/strtol.c:8-79 | The same of `strtol`, value, error and end pointer |
| Strtoul.WrongBase | libc/stdlib/strtoul.c:51-51 | A concrete hexadecimal text that both functions read as another number |
| Strtoul.BarePrefix | libc/stdlib/strtoul.c:29-58 | A concrete text, a prefix alone, of which both functions read nothing where the standard has its zero read |
| Strtoul.SpacesPassed | libc/stdlib/strtoul.c:9-69 | A concrete text without a number whose leading space both functions pass, where the standard has the pointer left as it was |
| Strtoul.MissedOverflow | libc/stdlib/strtoul.c:50-52 | A call of `strtoul` on a number of twenty digits that returns another number without an error |
| Strtoul.MissedOverflowLong | libc/stdlib/strtol.c:51-74 | Such a call of `strtol`, with a number whose wrapped value is within its limits |
| Strtoul.TextSplits | libc/stdlib/strtoul.c:9-56 | In a printed integer the parser finds exactly its digits and sign, whatever the padding |
| Strtoul.RoundTrip | libc/stdlib/strtoul.c:8-71 | Reading back an unsigned value printed with any width, precision and flags gives the value, with no overflow |
| Strtoul.SignedRoundTrip | libc/stdlib/strtol.c:8-79 | Reading back a signed value printed with any width, precision and flags gives the value, with no error |

## Left out

- Floating-point exception flags, rounding modes other than to nearest, and NaN payloads and signs.
- `fma` and `remquo` are in the tree but disabled in the build (libc/musl-generic-math/meson.build:88 and 165); they are modelled from the source.
- Fma.RoundTo52: the addition of `(tiny*tiny)*(r-r)`, a zero that only raises a flag, is not performed.
- Conversions of integers to double, products and sums of doubles are the correctly rounded operations of the standard, not modelled as hardware; conversion to float appears only where `fma` uses it.
- RyuD2d.GenericBinaryToDecimal: only the widths of a double, 52 and 11 bits, which its one caller passes (libc/stdio/do_printf.c:184).
- The formatting of floating-point numbers after the conversion, and the helpers of the conversion that it does not call.
- Heap.Allocator.Malloc: the kernel answers with any region of whole pages that is not in use and whose end is an address, or refuses; a mapping of length zero is always refused.
- `calloc`, `realloc` and `aligned_alloc`.
- Registry.ObjectTable.Insert: the file-id table, which is the same code on other fields, and the list of all objects; the clean-up of a half-built object after a failure.
- Search.Searcher.BuildSearchList: cyclic dependency graphs, for which the root, never marked, would be listed again.
- Initialisation.Initialiser.CallInitFunctions: cyclic graphs, on which the recursion does not terminate, and the interplay with `dlopen`.
- Finalisation.Linker.RunFiniFunctions: reference counts do not wrap; `obj_deref` reaching zero, and with it `dlclose`, is not modelled.
- Loading.Loader.CreateObject: finding an object by name is membership in the set of registered objects; a load that fails half way, and the objects it destroys, is left out, as are cyclic graphs.
- Relocation, image mapping, path search, lazy binding, IFUNC resolvers and the list building of `obj_init_finalize`.
- Symbols.GetSymbolInObject: a hash section whose chains do not end or that names symbols beyond the table is outside the precondition; names are byte strings rather than offsets into a string table, and objects on the two lists are numbers.
- Tls.StaticTls.AllocateTcb: `aligned_alloc` returns null or an area as it was asked for; the dynamic thread vector and the copying of the initialisation images are left out.
- Qsort.Qsort: the comparator is a function of the two records; one that writes to them or changes its mind is outside the model, as are arrays whose size in bytes exceeds 64 bits.
- Streams.Stream.FWrite: an item size of zero, for which the code divides by zero; the list of dirty streams.
- Printing.PrintInteger: lengths are unbounded integers, where the code uses `int`; the other conversions of the format parser.
- Strtoul.Strtol: negating the smallest `long` gives the smallest `long`, as two's complement does.
- `fread`, `scanf`, `bsearch`, time conversion, transcendental functions, locale, and the thin wrappers over system calls.
