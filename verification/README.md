# Verified models of the shader compiler's core

A Dafny 4.11 project about the hard parts of a SPIR-V to PS4/PS5 shader compiler: the GLSL type
system it takes from Mesa, the data structures underneath, and the passes of its own library
that stand alone.  `dafny verify dfyconfig.toml` checks all of it.

| files | what they model |
|---|---|
| `Words`, `BitScan`, `BitSet`, `BitSetRanges`, `BitSetIterators` | machine words as numbers and as sets of bits; find/count-bit fallbacks; arbitrary-size bitsets with shifts, ranges and two iterators |
| `BigMath` | schoolbook addition and multiplication over 32-bit limbs, with the overflow result |
| `ExecList` | the intrusive doubly linked list with two sentinels, as heap-mutating code |
| `GlslTypes`, `TypeCache`, `TypeCacheRuns`, `TypeTrees`, `TypeObjects` | the interning type cache: a state machine, what every sequence of calls keeps, the trees that types stand for, and the object that is updated in place |
| `Blobs`, `TypeBlob`, `TypeBlobTrees`, `TypeBlobStreams` | serialization of types to a byte stream, with bit-fields, escape words and nested fields, and back, also from bytes that no encoder wrote |
| `StdLayouts`, `Placement`, `ExplicitLayouts`, `DeclaredOffsets`, `SharedBytes`, `LeafAlignment`, `WrappedLayouts`, `ClLayouts`, `ClWords`, `LayoutLoops` | the std140, std430, OpenCL and callback memory layouts, and the loops that compute them |
| `MixedInputs`, `DescriptorUse`, `Subgroups`, `SpirvGate`, `ShaderContainer` | PS5 mixed-interpolation inputs and the semantic table, descriptor-use masks, subgroup built-ins, the SPIR-V gate, the shader container |

Imperative code is a method (or a class with methods) proved against functions; the functions
then carry the theorems.  Fixed-width arithmetic is written out where it can wrap: limbs and
bitset words, the 64-bit row products of the multiplication, the subgroup arithmetic, packed
type words, the attribute counter of the input split, and the sizes, strides and offsets of all
memory layouts.

## What turned out not to hold

Each of these comes with an input that shows it and with the exact condition, on the input, under
which the code does meet the property.

- The overflow result of the multiplication misses products: an inner loop stops after its first
  limb past the destination.  `FlagExact` gives the condition for given operands,
  `FlagCompleteForLengths` for given lengths, `MissedPair` an input.
- `exec_list_validate` accepts a list whose forward walk never meets the tail sentinel
  (`Validate`, `ProperIffWalkEndsAtTail`; input: `ValidateMissesDetachedTail`).
- Struct and interface fields that differ only in `pixel_local_storage` or
  `implicit_sized_array` are interned as one type (`SameFieldIsSameKey`; input: `ConflatedFields`).
- An explicit matrix or vector type whose shape is outside the tables shares its key with another
  shape, and the asserts after the lookup fire (`ExplicitAnswersIff`, `KeySpellsOut`; inputs:
  `UnrealShapesCollide`, `SharedKeys`).  Decoding then changes the type (`ClashDiffers`), and only
  then (`DecodeElsewhere`).
- Making an std430 type explicit a second time fires the stride assert exactly when some array has
  matrices or arrays of several elements as its elements (`AssertsAgain`; input: `SecondRunAsserts`).
- Declared offsets inside a nested structure are ignored by its size, so two scalars can get the
  same bytes and no assert fires.  `NoSharedByteIff` decides it on the declared type, for offsets at
  any depth and in any order; input: `NestedOffsetsOverlap`.  Whether the scalars also follow each
  other in declaration order is a different question, which `NoOverlapIff` decides; `NestedDecided`
  has layouts that tell the three cases apart.
- The two OpenCL computations differ on every matrix and on interfaces.  They agree on a type and on
  everything in it exactly when there is no matrix and every interface takes one byte
  (`TwoLayoutsAgree`; inputs: `MatricesDisagree`, `InterfaceOfOne`).  The totals of a type that
  contains a matrix can still be equal (`AgreeByAccident`).
- A pixel input at a built-in location that the semantic table has no key for, such as the viewport
  index, is counted as an attribute and never described, so that the table is refused.  After the
  split it can be built iff every input is at a generic, primitive-id or clip-distance location, the
  distances read are declared and every attribute is read (`SplitIsDescribed`; input:
  `ViewportRefused`).
- Only the generic locations are split.  Every attribute has one mode afterwards iff no other location
  is read both flat and interpolated (`OneModeIff`; inputs: `MixedDistanceStays`, `StrayIdShares`), and
  belongs to one location iff nothing is split or no per-primitive id is read interpolated
  (`OneLocationIff`; input: `StrayIdShares`).
- The flat bit is never set for clip-distance registers.  Wherever the table can be built, its flat
  bits are right iff no distance is read flat (`FlatBitsIff`; input: `FlatDistanceLosesBit`).
- NumSubgroups wraps to zero when the invocations plus the wave size pass 2^32 (`IdBelowCount`;
  input: `CountWraps`).

## Model

| member | source | states |
|---|---|---|
| BigMath.Add | src/util/bigmath.h:33-64 | the destination is a + b modulo 2^(32·dst_len) for operands of any lengths, also when it is one of the operands, and the result is true iff the sum does not fit |
| BigMath.Mul | src/util/bigmath.h:66-108 | the destination is always a·b modulo 2^(32·dst_len); the result is true iff the partial products that the loops look at do not fit, and then the product does not fit |
| BigMath.MulRow | src/util/bigmath.h:82-106 | one row adds a_i·b shifted by i limbs to the destination, up to what is lost past its end; no 64-bit intermediate wraps |
| BigMath.ReachedRest | src/util/bigmath.h:66-108 | the partial products that are skipped are a multiple of 2^(32·dst_len), zero iff no skipped pair of limbs is non-zero |
| BigMath.FlagExact | src/util/bigmath.h:95-101 | for given operands the overflow result is complete iff something reached does not fit or nothing non-zero is skipped |
| BigMath.FlagCompleteForLengths | src/util/bigmath.h:95-101 | the overflow result is complete for all operands of given lengths iff a is empty, b has at most one limb, or a_len + b_len <= dst_len + 2 |
| BigMath.MissedPair | src/util/bigmath.h:95-101 | operands whose product does not fit although the result is false |
| BitScan.Ffs | src/util/bitscan.c:35-63 | zero iff the word is zero, otherwise one plus the position of the least significant set bit |
| BitScan.FfsOfIsLowest | src/util/bitscan.c:35-63 | the recursive definition finds the least significant set bit |
| BitScan.Ffsll | src/util/bitscan.c:66-77 | the same for 64 bits, from the two halves |
| BitScan.LastBit | src/util/bitscan.h:253-272 | one plus the position of the most significant set bit, zero for zero |
| BitScan.BitCount | src/util/bitscan.h:338-354 | clearing the lowest set bit until none is left counts the ones |
| BitScan.CountIsCardinality | src/util/bitscan.h:338-354 | the count of ones is the size of the set of their positions |
| BitScan.ScanConsecutiveRange | src/util/bitscan.h:219-231 | start and count are the lowest maximal run of ones, and exactly that run leaves the mask |
| BitSet.RotateRight | src/util/bitset.h:138-151 | every bit moves down by the amount across word boundaries |
| BitSet.RotateLeft | src/util/bitset.h:153-166 | every bit moves up by the amount across word boundaries |
| BitSet.ShiftRight | src/util/bitset.h:168-190 | bit i of the result is bit i + k, for every k of at most n whole words, n being the size in words |
| BitSet.ShiftLeft | src/util/bitset.h:192-215 | bit i of the result is bit i - k, and the low k bits are clear, for every k |
| BitSet.MovedUpValue | src/util/bitset.h:192-215 | as a number, shifting left is multiplication by 2^k modulo 2^(32n) |
| BitSet.MovedDownValue | src/util/bitset.h:168-190 | as a number, shifting right is division by 2^k |
| BitSet.UpThenDown | src/util/bitset.h:168-215 | left and then right by k keeps the low 32n - k bits and clears the rest |
| BitSetRanges.SetRange | src/util/bitset.h:260-270 | exactly the bits start to end become members, every other bit is unchanged |
| BitSetRanges.ClearRange | src/util/bitset.h:275-285 | exactly the bits start to end leave the set |
| BitSetRanges.TestRange | src/util/bitset.h:241-255 | true iff some bit from start to end is a member |
| BitSetRanges.ExtractBits | src/util/bitset.h:294-303 | bit k of the extracted word is bit start + k of the set, also across a word boundary, and bits from count on are clear |
| BitSetRanges.PrefixSum | src/util/bitset.h:308-327 | the result is the number of members below the bound, the cardinality of that set |
| BitSetRanges.MembersIsCardinality | src/util/bitset.h:308-333 | counting members one by one gives the cardinality of the set |
| BitSetRanges.LastBitOfSet | src/util/bitset.h:369-380 | one plus the largest member in the words, zero if there is none |
| BitSetRanges.LastBitBefore | src/util/bitset.h:382-393 | one plus the largest member below the bound, zero if there is none |
| BitSetIterators.NextSet | src/util/bitset.h:401-436 | the next member at or after the cursor, or the size when there is none, leaving the iterator ready to go on |
| BitSetIterators.ForeachSet | src/util/bitset.h:401-443 | the iteration visits exactly the members below the size, once each and in increasing order, and ends |
| BitSetIterators.NextRange | src/util/bitset.h:445-502 | the next maximal run of members at or after the end of the previous one, clipped to the size, stray bits past the size ignored |
| BitSetIterators.ForeachRange | src/util/bitset.h:445-508 | the iteration visits exactly the maximal runs, in order and disjoint, and ends |
| BitSetIterators.SameRun | src/util/bitset.h:445-508 | maximal runs that share a bit are the same run |
| ExecLists.ExecList.constructor | src/compiler/list.h:160-167 | a new list is valid and represents the empty sequence |
| ExecLists.ExecList.MakeEmpty | src/compiler/list.h:160-167 | the list becomes valid and empty whatever its links were |
| ExecLists.ExecList.Length | src/compiler/list.h:216-226 | the walk ends and counts the represented sequence |
| ExecLists.ExecList.PushHead | src/compiler/list.h:229-237 | the sequence gets the node at the front, the list stays valid |
| ExecLists.ExecList.PushTail | src/compiler/list.h:239-247 | the sequence gets the node at the back, the list stays valid |
| ExecLists.ExecList.PopHead | src/compiler/list.h:249-257 | the first node is returned and leaves the sequence; null iff it was empty |
| ExecLists.InsertAfter | src/compiler/list.h:102-110 | the node is inserted after any position, head sentinel included |
| ExecLists.InsertBefore | src/compiler/list.h:112-120 | the node is inserted before any position, tail sentinel included |
| ExecLists.Remove | src/compiler/list.h:86-93 | the node leaves the sequence and its links are null |
| ExecLists.InsertListAfter | src/compiler/list.h:298-311 | all of the source is spliced in after a position, the source becomes empty, both stay valid and apart |
| ExecLists.Append | src/compiler/list.h:277-296 | the source is appended and becomes empty |
| ExecLists.MoveNodesTo | src/compiler/list.h:259-275 | the target takes over the whole sequence and the list becomes empty |
| ExecLists.LinkedIsDistinct | src/compiler/list.h:160-331 | a linked chain that starts at a node without predecessor visits no node twice, which is why every operation may rely on it |
| ExecLists.Validate | src/compiler/list.h:313-331 | on any heap validation ends, and succeeds exactly when the forward walk from the head sentinel is linked both ways and the tail sentinel's own links agree |
| ExecLists.ProperIffWalkEndsAtTail | src/compiler/list.h:313-331 | a list is proper iff it passes validation and the walk ends at the tail sentinel |
| ExecLists.ValidateMissesDetachedTail | src/compiler/list.h:313-331 | a list that passes although its walk never meets the tail sentinel |
| GlslTypes.BuiltinLookup | src/compiler/glsl_types.c:855-1180 | looking a sampler, texture or image type up by its own parameters finds it |
| GlslTypes.LookupStaysInTable | src/compiler/glsl_types.c:855-1180 | whatever the parameters, the lookups return a builtin of the tables or the error type |
| GlslTypes.RealShapeExact | src/compiler/glsl_types.c:645-772 | which rows and columns name a vector or matrix type rather than the error type |
| GlslTypes.SameFieldIsSameKey | src/compiler/glsl_types.c:1424-1535 | the field-by-field comparison is equality of a normal form that drops the two qualifiers it does not look at |
| GlslTypes.SameFieldsHash | src/compiler/glsl_types.c:1538-1569 | records that compare equal have equal hashes, the final fold to 32 bits included |
| TypeCache.CmatKeyInjective | src/compiler/glsl_types.c:1355-1363 | the packed 64-bit key of a cooperative matrix determines its description |
| TypeCache.InternKeepsFiled | src/compiler/glsl_types.c:782-1683 | whatever is asked for, every type stays where it is and is found under its key, no two entries of a table compare equal, stored hashes are right |
| TypeCache.InternKeepsInv | src/compiler/glsl_types.c:782-1683 | every constructor keeps the cache invariant (every type under its key, no two entries of a table compare equal, stored hashes right, types built from earlier types) and moves no existing type, for all arguments that pass its asserts |
| TypeCache.InternAnswers | src/compiler/glsl_types.c:782-1683 | the type returned has the key of the request, for any request |
| TypeCache.SameKeyIsEqual | src/compiler/glsl_types.c:782-1391 | apart from structures and interfaces, and explicit shapes outside the tables, equal keys mean equal requests |
| TypeCache.CmatAnswers | src/compiler/glsl_types.c:1357-1391 | a cooperative matrix is answered with exactly the requested description, so the asserts after the lookup hold |
| TypeCache.ExplicitAnswersIff | src/compiler/glsl_types.c:782-852 | in a cache of real shapes, a request for any shape that passes the asserts gets a type with the requested parts iff its own shape is real or its key is new |
| TypeCache.KeySpellsOut | src/compiler/glsl_types.c:782-852 | a key spells out the record it was made from iff the shape is of the tables |
| TypeCache.UnrealShapesCollide | src/compiler/glsl_types.c:782-852 | for every shape outside the tables, a different request that is answered with its type |
| TypeCache.SharedKeys | src/compiler/glsl_types.c:782-852 | vectors of 6 and of 8 elements share a key, and so do integer matrices |
| TypeCache.KeysAreUnique | src/compiler/glsl_types.c:782-1683 | two allocated types with keys that compare equal are one type |
| TypeCache.InternMeets | src/compiler/glsl_types.c:782-1683 | a request is answered with an existing type iff its key compares equal, and then the cache does not change |
| TypeCacheRuns.StepKeepsInv | src/compiler/glsl_types.c:468-508 | each call keeps the invariant, and types go away only when the last user leaves |
| TypeCacheRuns.RunKeepsInv | src/compiler/glsl_types.c:468-1683 | the invariant holds after every sequence of calls |
| TypeCacheRuns.RunKeepsTypes | src/compiler/glsl_types.c:490-508 | while some user stays, no sequence of calls moves or frees a type |
| TypeCacheRuns.UsersAreCounted | src/compiler/glsl_types.c:468-508 | the counter is the number of users after every sequence of calls, and the tables are empty when it is zero |
| TypeCacheRuns.HashConsing | src/compiler/glsl_types.c:782-1683 | two requests, with any calls between them that keep the cache in use, get the same type iff their keys compare equal |
| TypeCacheRuns.ConflatedFields | src/compiler/glsl_types.c:1424-1535 | in any cache, interning two records that differ in one of the qualifiers returns one type |
| TypeCacheObject.GlslTypeCache.constructor | src/compiler/glsl_types.c:468-490 | the cache starts empty and valid |
| TypeCacheObject.GlslTypeCache.InitOrRef | src/compiler/glsl_types.c:468-490 | one more user, nothing else changes |
| TypeCacheObject.GlslTypeCache.Decref | src/compiler/glsl_types.c:492-508 | one user less, and the last one empties every table |
| TypeCacheObject.GlslTypeCache.GetExplicit | src/compiler/glsl_types.c:782-852 | the explicit vector or matrix is found or added by its key, the cache stays valid, and among shapes of the tables the type has exactly the requested parts |
| TypeCacheObject.GlslTypeCache.GetArray | src/compiler/glsl_types.c:1289-1331 | the same for arrays |
| TypeCacheObject.GlslTypeCache.GetCmat | src/compiler/glsl_types.c:1355-1391 | the same for cooperative matrices |
| TypeCacheObject.GlslTypeCache.Lookup | src/compiler/glsl_types.c:1538-1550 | the search finds an entry with this hash whose record compares equal, if there is one |
| TypeCacheObject.GlslTypeCache.GetStruct | src/compiler/glsl_types.c:1572-1611 | a structure is found by comparison or added, the cache stays valid |
| TypeCacheObject.GlslTypeCache.GetInterface | src/compiler/glsl_types.c:1614-1651 | the same for interfaces |
| TypeCacheObject.GlslTypeCache.GetSubroutine | src/compiler/glsl_types.c:1654-1683 | the same for subroutines |
| TypeTrees.Sharing | src/compiler/glsl_types.c:1281-1683 | two references are equal iff the types they stand for, unfolded all the way down, are equal |
| TypeTrees.TreeStable | src/compiler/glsl_types.c:1281-1683 | a type keeps its meaning while the cache grows |
| Blobs.ReadBackU32 | src/util/blob.c:200-324 | a 32-bit value is read back from where it was written, alignment included, and the reader stops right behind it |
| Blobs.ReadBackString | src/util/blob.c:244-351 | the same for a string |
| Blobs.ReadBackBytes | src/util/blob.c:157-290 | the same for raw bytes |
| BlobObjects.Blob.PutU32 | src/util/blob.c:200-210 | pads to four bytes and appends the little-endian word |
| BlobObjects.BlobReader.TakeU32 | src/util/blob.c:310-326 | aligns and reads a word; zero and an overrun once the data has ended |
| BlobObjects.BlobReader.TakeString | src/util/blob.c:328-351 | the bytes up to the next zero byte; nothing and an overrun if there is none |
| BlobObjects.BlobReader.TakeBytes | src/util/blob.c:277-290 | the next bytes; nothing and an overrun if there are not enough |
| TypeBlob.BasicWordParts | src/compiler/glsl_types.c:3057-3087 | every bit-field of the packed word of scalars, vectors and matrices is read back as it was stored |
| TypeBlob.HandleWordParts | src/compiler/glsl_types.c:3057-3087 | the same for samplers, textures and images |
| TypeBlob.ArrayWordParts | src/compiler/glsl_types.c:3057-3087 | the same for arrays |
| TypeBlob.RecordWordParts | src/compiler/glsl_types.c:3057-3087 | the same for structures and interfaces |
| TypeBlob.ReadBackAlign | src/compiler/glsl_types.c:3118-3356 | the four-bit alignment code, or the escape word after it, gives the alignment back |
| TypeBlob.ReadBackQualifiers | src/compiler/glsl_types.c:3089-3115 | every qualifier of a field is read back |
| TypeBlob.DecodeRebuilds | src/compiler/glsl_types.c:3117-3356 | decoding into any cache what was encoded from another rebuilds the type through the constructors and consumes exactly what was written, whatever precedes and follows it |
| TypeBlob.RoundTrip | src/compiler/glsl_types.c:3117-3356 | decoding in the same cache returns the very same type, leaves the cache unchanged and consumes exactly what was written |
| TypeBlobTrees.InternTree | src/compiler/glsl_types.c:782-1683 | what a constructor returns has the tree that was asked for, if no different explicit type has its key |
| TypeBlobTrees.RebuildKeepsTree | src/compiler/glsl_types.c:3237-3356 | rebuilding in any valid cache where no different explicit type has one of the keys gives a type with the same tree, keeps that cache valid and only adds to it |
| TypeBlobTrees.DecodeElsewhere | src/compiler/glsl_types.c:3117-3356 | decoding in any other such cache gives a type equal all the way down to the one encoded |
| TypeBlobTrees.RealIsCompatible | src/compiler/glsl_types.c:782-852 | between caches of shapes of the tables that is always so |
| TypeBlobTrees.ClashDiffers | src/compiler/glsl_types.c:3117-3356 | where a different explicit type has the key, decoding returns that one |
| TypeBlobStreams.DecodeStaysSound | src/compiler/glsl_types.c:3236-3356 | whatever the bytes, if decoding gives a type then every type is still where it was and found under its key, no two entries of a table compare equal, every part leads to a builtin or an earlier type, and the result is a builtin of the tables, a type of the cache, or nothing |
| TypeBlobStreams.InternStaysSound | src/compiler/glsl_types.c:782-1683 | the same for every constructor, asked for fields without a type |
| TypeBlobStreams.SoundIsInv | src/compiler/glsl_types.c:468-1683 | what is kept is the cache invariant of a cache in use, iff every field has a type |
| TypeBlobObjects.EncodeType | src/compiler/glsl_types.c:3117-3234 | the method that writes to the blob appends exactly the encoding |
| TypeBlobObjects.DecodeType | src/compiler/glsl_types.c:3236-3356 | the method that reads from the blob and updates the cache returns, and leaves behind, what decoding says |
| TypeBlobObjects.PutRecord | src/compiler/glsl_types.c:3201-3226 | the loop over the fields writes name, escapes and every field in order |
| TypeBlobObjects.DecodeFieldList | src/compiler/glsl_types.c:3314-3332 | the loop over the fields decodes all of them or fails at the first that does not decode |
| Alignment.AlignUpIs | src/util/u_math.h:724-729 | the result is a multiple of the alignment and less than one alignment above the value |
| Alignment.AlignUpLeast | src/util/u_math.h:724-729 | no smaller multiple is at or above the value |
| Alignment.MaskAligns | src/util/u_math.h:724-729 | for powers of two, adding and masking in 32 bits computes the same number |
| Wrapping.MaskAlignsWord | src/util/u_math.h:724-729 | for every power of two below 2^32, the 32-bit rounding of the layouts is adding and masking, also where the addition wraps |
| Wrapping.AlignWordIs | src/util/u_math.h:724-729 | rounding in 32 bits is rounding modulo 2^32 |
| StdLayouts.SizeMultiple | src/compiler/glsl_types.c:2134-2274 | in std140 the size of everything but scalars and vectors is a multiple of 16 |
| StdLayouts.SizeOfArray | src/compiler/glsl_types.c:2171-2609 | in both layouts the size of T[n] is n times the stride that the explicit type gives it, at every depth of nesting, for both matrix orders |
| ExplicitLayouts.ExplicitKeeps | src/compiler/glsl_types.c:2276-2350 | making a type explicit changes neither its size nor its alignment, in std140 and in std430 |
| ExplicitLayouts.ExplicitSizeAsserts | src/compiler/glsl_types.c:2221-2222 | the strides of an explicit type satisfy the assert of the size computation |
| ExplicitLayouts.AssertsNeverFire | src/compiler/glsl_types.c:2276-2720 | on types without explicit strides no assert about strides fires, in either layout |
| ExplicitLayouts.AssertsAgain | src/compiler/glsl_types.c:2462-2480 | on types that are explicit already the asserts hold always in std140, and in std430 iff every array is flat |
| ExplicitLayouts.SecondRunAsserts | src/compiler/glsl_types.c:2462-2480 | an array of arrays on which the first run meets every assert and the second one does not |
| ExplicitLayouts.ExplicitTwice | src/compiler/glsl_types.c:2276-2720 | making an explicit type explicit again gives the same type |
| ExplicitLayouts.FieldAligned | src/compiler/glsl_types.c:2317-2334 | every field offset is a multiple of the field's base alignment, declared or not |
| ExplicitLayouts.FieldsInOrder | src/compiler/glsl_types.c:2317-2334 | where declared offsets meet the assert, every field starts at or after the end of every earlier field |
| ExplicitLayouts.NextIsEnd | src/compiler/glsl_types.c:2238-2334 | without declared offsets the offsets follow the running size of the size computation, whose extra rounding after structures changes nothing |
| ExplicitLayouts.ExplicitFits | src/compiler/glsl_types.c:2276-2548 | without declared offsets the explicit type is well laid and glsl_get_explicit_size stays within the layout size, at every depth, in both layouts |
| ExplicitLayouts.LayoutNoOverlap | src/compiler/glsl_types.c:2276-2720 | without declared offsets no two scalars or vectors of a type share a byte, and all lie within its size |
| ExplicitLayouts.BlockNoOverlap | src/compiler/glsl_types.c:2329-2334 | the same for a block whose own fields declare offsets that meet the assert, when what its fields contain ends within their sizes |
| ExplicitLayouts.NestedOffsetsOverlap | src/compiler/glsl_types.c:2317-2334 | a block with two floats in the same four bytes although the offset assert holds at both levels |
| SharedBytes.ExtentsMatch | src/compiler/glsl_types.c:2276-2350 | the set of bytes that the scalars and vectors of the explicit type take, and whether two share one, computed from the declared type alone |
| SharedBytes.NoSharedByteIff | src/compiler/glsl_types.c:2276-2350 | with offsets declared at any depth and in any order, no byte belongs to two scalars or vectors iff in the declared type no field takes a byte of an earlier one and no array element a byte of another |
| SharedBytes.ClearIsSeparate | src/compiler/glsl_types.c:2276-2350 | what is in declaration order shares no byte |
| SharedBytes.NestedDecided | src/compiler/glsl_types.c:2317-2334 | a float nested at a declared offset and a float after it, with every offset assert met: they share bytes iff the offset is 16, and are in declaration order iff it is less |
| DeclaredOffsets.PlaceIsOffset | src/compiler/glsl_types.c:2317-2334 | every offset of the explicit type, computed from the declared type alone |
| DeclaredOffsets.ExtentsAgree | src/compiler/glsl_types.c:2276-2350 | where the first scalar or vector starts, where the last one ends and whether they are in order, computed from the declared type alone, with offsets declared at any depth |
| DeclaredOffsets.NoOverlapIff | src/compiler/glsl_types.c:2276-2350 | with offsets declared at any depth, the scalars and vectors follow each other in declaration order without sharing a byte iff no field that is followed by another, and no repeated element, reaches past the start of what comes next |
| DeclaredOffsets.MeetingOffsetsAreClear | src/compiler/glsl_types.c:2329-2334 | without declared offsets below the top the assert at the top is enough |
| ExplicitLayouts.NeverLooser | src/compiler/glsl_types.c:2352-2639 | the std430 alignment divides the std140 alignment and the std430 size is at most the std140 size, for every type without empty structures |
| LeafAlignment.SizeOfWhole | src/compiler/glsl_types.c:2014-2639 | the size of everything but vectors is a multiple of its own alignment, in both layouts |
| LeafAlignment.EverythingAligned | src/compiler/glsl_types.c:2014-2720 | a type placed at a multiple of its alignment has every scalar and vector inside it, at any depth, at a multiple of its own alignment |
| Placement.NoOverlap | src/compiler/glsl_types.c:2487-2548 | when strides leave room and fields follow each other, no byte belongs to two scalars or vectors and all lie within glsl_get_explicit_size |
| ClLayouts.ClSizeMultiple | src/compiler/glsl_types.c:3358-3410 | OpenCL sizes are multiples of OpenCL alignments |
| ClLayouts.TwoLayoutsAgree | src/compiler/glsl_types.c:2733-2827 | with the OpenCL callback, size and alignment are those of glsl_get_cl_size and glsl_get_cl_alignment on a type and on everything in it iff there is no matrix and every interface takes one byte; packed structures and empty arrays included |
| ClLayouts.CommonAgree | src/compiler/glsl_types.c:2733-2827 | under that condition the two agree on the whole type |
| ClLayouts.MatricesDisagree | src/compiler/glsl_types.c:3358-3410 | on every matrix the direct size is one and the callback size is larger |
| ClLayouts.InterfaceOfOne | src/compiler/glsl_types.c:3358-3410 | on an interface of one scalar they agree iff the scalar takes one byte |
| ClLayouts.AgreeByAccident | src/compiler/glsl_types.c:3358-3410 | a structure with a matrix on whose total the two agree |
| ClLayouts.LaidInOrder | src/compiler/glsl_types.c:2775-2790 | with any callback fields are in order, and aligned unless the structure is packed |
| ClLayouts.LaidIsWell | src/compiler/glsl_types.c:2733-2827 | with any callback that leaves room for scalars and vectors, the explicit type is well laid and ends within the size returned |
| WrappedLayouts.WrappedIsSame | src/compiler/glsl_types.c:2276-2350 | storing strides as `unsigned` and offsets as `int` loses nothing iff all of them fit |
| WrappedLayouts.WrappedKeeps | src/compiler/glsl_types.c:2132-2274 | sizes and alignments do not depend on the stored strides and offsets, wrapped or not |
| WrappedLayouts.SmallIsExact | src/compiler/glsl_types.c:2276-2350 | without declared offsets, a type of less than 2^31 bytes is made explicit without loss |
| WrappedLayouts.MeasuredIff | src/compiler/glsl_types.c:2487-2548 | glsl_get_explicit_size in 32-bit arithmetic, with its running maximum, returns the size iff the size fits 32 bits |
| ClWords.ClAlignIsWord | src/compiler/glsl_types.c:3358-3380 | every OpenCL alignment is a power of two that `align` accepts |
| ClWords.ClFits | src/compiler/glsl_types.c:3423-3429 | the OpenCL callback returns 32-bit sizes and alignments that `align` accepts |
| ClWords.LaidAlignIsWord | src/compiler/glsl_types.c:2733-2827 | so is every alignment of the callback layout, if the callback's are |
| LayoutLoops.FlattenArray | src/compiler/glsl_types.c:3526-3594 | the loops reach the innermost element type and the product of all lengths modulo 2^32 |
| LayoutLoops.BaseAlignment | src/compiler/glsl_types.c:2014-2130 | the recursive method with its loop over fields computes the base alignment, std140 and std430 |
| LayoutLoops.LayoutSize | src/compiler/glsl_types.c:2132-2274 | the recursive method in 32-bit arithmetic computes the size modulo 2^32, std140 and std430, whatever wraps on the way |
| LayoutLoops.LayoutRecord | src/compiler/glsl_types.c:2238-2274 | the same for the loop over the fields of a structure or interface |
| LayoutLoops.ArrayStride | src/compiler/glsl_types.c:2462-2480 | the stride of an array of the given elements modulo 2^32 |
| LayoutLoops.MakeExplicit | src/compiler/glsl_types.c:2276-2350 | the recursive method in 32-bit arithmetic builds the explicit type with every stride and offset reduced to 32 bits |
| LayoutLoops.PlaceFields | src/compiler/glsl_types.c:2317-2334 | the loop with its running offset places every field |
| LayoutLoops.MeasureExplicit | src/compiler/glsl_types.c:2487-2548 | the recursive method with its running maximum computes the explicit size in 32-bit arithmetic |
| LayoutLoops.OpenClAlignment | src/compiler/glsl_types.c:3358-3380 | the method with its loop computes the OpenCL alignment of any type, cooperative matrices included |
| LayoutLoops.OpenClSize | src/compiler/glsl_types.c:3382-3410 | the method in 32-bit arithmetic computes the OpenCL size modulo 2^32, for any type whose component counts are bytes, cooperative matrices included |
| LayoutLoops.LayBySizeAlign | src/compiler/glsl_types.c:2733-2827 | the method in 32-bit arithmetic builds the explicit type for a callback with every stride and offset reduced to 32 bits, and the size modulo 2^32 |
| MixedInputs.Classify | libpsbc/psbc_compile.c:468-486 | the mode of a location says whether it is read flat, interpolated or both |
| MixedInputs.Split | libpsbc/psbc_compile.c:511-541 | the split succeeds iff there is nothing to add or the attributes, with one more per mixed location, fit in 32; the loads and the count afterwards |
| MixedInputs.NoMixedAttribute | libpsbc/psbc_compile.c:452-541 | afterwards, interpolated per-primitive ids aside, no attribute belongs to two locations, and no generic attribute is read both flat and interpolated |
| MixedInputs.OneLocationIff | libpsbc/psbc_compile.c:488-541 | afterwards no attribute belongs to two locations, iff nothing is split or no per-primitive id is read interpolated |
| MixedInputs.OneModeIff | libpsbc/psbc_compile.c:468-541 | afterwards every attribute is read in one mode iff no location but the generic ones was read in both |
| MixedInputs.MixedDistanceStays | libpsbc/psbc_compile.c:468-541 | a distance register read flat and interpolated, which the split leaves as it is |
| MixedInputs.StrayIdShares | libpsbc/psbc_compile.c:488-541 | a per-primitive id read in both modes, after which one attribute belongs to two locations and is read in both modes |
| MixedInputs.AttributesFilled | libpsbc/psbc_compile.c:511-541 | afterwards the attributes read are those that were read, one more per mixed location, and a per-primitive id after them |
| MixedInputs.PrimitiveLast | libpsbc/psbc_compile.c:528-534 | a per-primitive id is the last attribute |
| MixedInputs.BuildSemantics | libpsbc/psbc_compile.c:568-667 | the table is built iff there are at most 32 attributes, no special mask, every load can be described, no attribute gets two words and every attribute gets one; it then holds the word of every attribute |
| MixedInputs.WordParts | libpsbc/psbc_compile.c:568-667 | the low eight bits of a word are the key of the location; bit 22 is set iff the load is flat, not a per-primitive id and not a distance |
| MixedInputs.SplitIsDescribed | libpsbc/psbc_compile.c:452-667 | after a successful split the table can be built iff every load is at a location it can describe, every distance register read is declared and every attribute is read; then the word of every attribute has the key of the loads that read it, and their flat bit unless they read a distance |
| MixedInputs.ViewportRefused | libpsbc/psbc_compile.c:568-667 | a shader that reads only the viewport index: its attribute is counted, never described, and the table refused |
| MixedInputs.FlatBitsIff | libpsbc/psbc_compile.c:610-635 | wherever the table can be built, every flat bit says what the loads want iff no distance register is read flat |
| MixedInputs.FlatDistanceLosesBit | libpsbc/psbc_compile.c:610-635 | a flat read of a distance register gets a word without the flat bit |
| MixedInputs.SplitAndDescribe | libpsbc/psbc_compile.c:452-667 | the two passes in sequence succeed iff the attributes with one more per mixed location fit in 32, no special mask is set, every load is at a location the table can describe, every distance read is declared and every attribute is read; they keep every location and interpolation kind, and give every load an attribute whose word has its key and, distances aside, its flat bit |
| DescriptorUse.Gather | libpsbc/psbc_compile.c:809-901 | a set bit is set iff some instruction names the set, a binding bit iff it is below 64 and named |
| DescriptorUse.UnknownSets | libpsbc/psbc_compile.c:3589-3592 | exactly the used sets of which no binding is recorded |
| DescriptorUse.Merge | libpsbc/psbc_compile.c:3583-3618 | bit (s, b) is set iff some half names it, or it is declared and some half uses set s without naming any of its bindings |
| DescriptorUse.HalvesCommute | libpsbc/psbc_compile.c:3583-3618 | the masks do not depend on which half comes first |
| DescriptorUse.MergeIsUnion | libpsbc/psbc_compile.c:3583-3618 | the masks of two halves are, set by set, the bitwise or of what each half gets by itself |
| Subgroups.IndexExact | libpsbc/psbc_compile.c:182-197 | for a workgroup below 2^32 invocations nothing wraps and the index is below their number |
| Subgroups.IndexInjective | libpsbc/psbc_compile.c:182-197 | different invocations have different indices |
| Subgroups.IndexSurjective | libpsbc/psbc_compile.c:182-197 | every number below the number of invocations is an index |
| Subgroups.IdBelowCount | libpsbc/psbc_compile.c:164-201 | the subgroup id is below NumSubgroups iff adding the wave size does not wrap; when it wraps NumSubgroups is zero |
| Subgroups.CountWraps | libpsbc/psbc_compile.c:164-201 | a workgroup of 2^32 - 1 invocations whose NumSubgroups is zero |
| Subgroups.SubgroupSizes | libpsbc/psbc_compile.c:164-201 | all subgroups but the last have exactly wave-size invocations, the last has at least one |
| SpirvGate.Check | libpsbc/psbc_compile.c:2542-2598 | the loop ends and returns what the recursive scan returns |
| SpirvGate.PassesIff | libpsbc/psbc_compile.c:2542-2598 | a module passes iff its header is valid, word counts cut the rest exactly into instructions (section 2.3 of the SPIR-V Specification) and every capability of a two-word OpCapability is enabled |
| SpirvGate.RefusesCapabilityIff | libpsbc/psbc_compile.c:2542-2598 | a capability is reported iff a whole instruction names a disabled one and everything before it is in order |
| SpirvGate.EnablingKeepsPass | libpsbc/psbc_compile.c:2542-2598 | enabling more options never turns a pass into an error |
| ShaderContainer.StructureSize | libpsbc/psbc_compile.c:285-297 | for every represented stage headershsize is the size of the structure that the write switch picks for it |
| ShaderContainer.Plan | libpsbc/psbc_compile.c:1690-1742 | the sizes added up before anything is written |
| ShaderContainer.PutStructure | libpsbc/psbc_compile.c:1777-2062 | the switch writes the structure of the stage at the running offset and refuses every other stage |
| ShaderContainer.Build | libpsbc/psbc_compile.c:1644-2239 | for every represented stage the running offset stays within the buffer and ends at its precomputed size, the buffer holds every part in order, and the chunk offset is taken from the running offset; other stages are refused |
| ShaderContainer.FileSizes | libpsbc/psbc_compile.c:1687-1742 | the sizes computed beforehand, from the stage and the slots counted, are the sizes of what is written, for all slot, semantic and code counts |
| ShaderContainer.PutAll | libpsbc/psbc_compile.c:2087-2160 | the loops over records write them one after the other |
| ShaderContainer.ReadersAgree | include/pssl_types.h:590-620 | the accessors, reading only the code size in the header, land exactly on the file header, binary info and param info that were written |
| ShaderContainer.SlotsAreThere | libpsbc/psbc_compile.c:2054-2085 | the usage slots start right behind the shader header |
| ShaderContainer.ChunkLeadsBack | libpsbc/psbc_compile.c:2169-2199 | going back the computed number of words from the binary info leads to the first usage slot iff the shader header is a whole number of words |

## Left out

- Layouts of unsized arrays, cooperative matrices, interface types below the top level, and vectors of 5, 8 or 16 elements in std140 and std430; structures without fields in std430, on which the source asserts.
- TypeBlob.RoundTrip: does not cover types that contain the error type, which has no encoding, or explicit shapes whose rows or columns have no code in the packed word; none of those are in the tables.
- TypeBlob.DecodeRebuilds: says nothing about streams that no encoder wrote; for those see TypeBlobStreams.DecodeStaysSound, and where the original would follow a null pointer or fail an assert on its arguments, decoding has no result.
- The asserts after the cache lookups do not stop the model: a request is answered with what the table holds, and TypeCache.ExplicitAnswersIff and TypeCache.CmatAnswers say when that is what was asked for.
- ClLayouts.TwoLayoutsAgree: covers vectors of at most sixteen components, the largest there are, and no cooperative matrices, to which the callback layout gives no size.
- LayoutLoops.LayBySizeAlign: no cooperative matrices, as above.
- ShaderContainer.ChunkLeadsBack: which stages have a header of whole words depends on the gnm structures, which are not part of the repository.
- Blob growth, fixed-size blobs and out-of-memory paths, and the hash functions behind the keyed tables; those tables are finite maps, the record tables are lists of hashed entries.
- Real locking: each section that the source runs under the cache mutex is one step.
- ShaderContainer.Build: the contents of the gnm structures are parameters, since the gnm headers that define them are not part of the repository; the width of the chunk-offset field is therefore not modelled, the CRC and the FNV hash are part of a parameter, and the payload size is below 2^32.
- MixedInputs.SplitIsDescribed: covers loads of one slot, at any location, whose locations and bases correspond one to one, as the compiler establishes before the pass; Split and BuildSemantics themselves cover all loads.
- Output semantics and their keys, vertex and register metadata, tessellation parameters and the other passes of psbc_compile.c that call into RADV, NIR or ACO.
- DescriptorUse.Merge: the walk sees instructions with their resources resolved; how a dereference leads to a variable is not modelled.
- The remaining one-line bitset, list and bit-scan helpers, 64-bit variants and compiler-builtin branches, which would only add easy members.
- The command line tool, JSON output, file handling, name tables, format switches and floating-point helpers.
