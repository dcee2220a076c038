# Verified core of a renderer's support code

A Dafny model of the algorithms that a ray-traced renderer's support code rests on, with proofs of what each
is for. `dafny verify dfyconfig.toml` checks the whole project.

| file | models |
|---|---|
| `MergeSort.dfy`, `HeapSort.dfy` (with `Orders.dfy`) | the bottom-up merge sort between two buffers and the in-place heap sort, on arrays, with their 32-bit counters |
| `FastRand.dfy` | the linear congruential generator and the vector multiply-with-carry generator, as the object they are |
| `LowDiscrepancy.dfy` | the radical inverse loop and the 32-bit bit reversal |
| `SmallFloat.dfy` | packing floats to formats with five exponent bits, and unpacking |
| `Octahedral.dfy` | unit vectors folded onto a square |
| `Vectors.dfy`, `Matrix.dfy` | the lane helpers, the matrix product, and the in-place inverse |
| `Boxes.dfy`, `ClipPlanes.dfy`, `DepthPlanes.dfy`, `MaskBits.dfy`, `Frustum.dfy`, `Culling.dfy` | clip planes from a matrix, which of them is near and which far, the frustum object, its masked box tests, transformed boxes, and culling from object space to the answer |
| `BoxTriangle.dfy`, `SeparatingAxes.dfy` (with `HalfPlanes.dfy`) | the separating-axis test of a box and a triangle, and why its thirteen axes are enough |
| `TaskPool.dfy` | the shader compiler's worker threads, as a state machine over single statements and as an object |
| `VariantMatrix.dfy`, `VariantNames.dfy` | the expansion of a shader variant matrix, the grouping of its variants, and when two of them share a name |
| `Depfile.dfy` | the dependency-file parser, and the printer it undoes |
| `MaxMip.dfy` | the atlas of maximum mip levels |
| `TextureCache.dfy` | linear texture storage and the table of image addresses |
| `Bits.dfy`, `Powers.dfy`, `Wrappers.dfy` | bit operators on naturals, powers, laws of division, and the option type |

Code that changes state is modelled by methods over arrays and classes; each is proved against a property or a
specification function, and the lemmas say what holds of that function over all inputs or whole runs. Geometry is
exact real arithmetic; `SmallFloat` works on bit patterns; counters and generators wrap as 32-bit words where they do.

Results that a reader of the code may not expect:

- The merge sort reverses the input order of equal elements when it is given a strict order (ties take the right
  run), and is stable when it is given a reflexive one. Its pass loop ends with everything merged
  exactly if n <= 2^30. Up to 2^31 the pass that merges everything still comes, but then the size wraps to zero and
  the loop never ends; from 2^31 on the loop bound wraps too.
- A lane of the vector generator stands still from its third step on exactly if its seed word is a multiple of
  `m * 2^16 - 1`. Those are the words 0, 1179647999, 2359295998 and 3538943997 for the four a-lanes, and 0, 2025259007
  and 4050518014 for the four b-lanes; `DeadLaneExactly` lists for each lane the seeds that draw them.
- Two variants of a matrix can have one name, so that two workers write one file: the suffixes "-" and "x" on two axes
  make base_x twice. `NamesDifferExactly` gives the condition under which all names differ.
- A blank before the colon of a dependency rule makes an empty word a target as well. That target matches when the
  basename of what is expected is that of the empty name; `RightRuleExactly` says when the right rule is still found.
- `FromPacked` moves the sign to bit 30, not 31, of a bit pattern. That is harmless: infinity has bit 30 set, and
  the value is negated afterwards. Packing undoes unpacking for every code but the two zeros, -infinity included.
- Where a far plane has no normal, as for an infinite projection, the plane put in for it does cut off visible
  points; `VisibleBoxIsKept` says exactly when, and `StandInCullsVisiblePoints` names the points for one matrix.
- Which depth plane is near is decided by comparing scaled distances. A far row with a normal shorter than the least
  float is scaled less, so it can be taken for the near one; `NearAndFar` gives the exact condition.
- `generate_max_mip` completes exactly for sides that are powers of two. An image higher than wide does not fail: a
  level one column wide assigned to an empty slice stores nothing, so the levels beyond the atlas are dropped.
- A square point on the folded rim of the octahedral map does not come back from decoding and encoding when the
  coordinate that decodes to zero was negative; `EncodeUndoesDecodeExactly` gives the condition.
- The comment in the shader driver about continuation lines inside a variant matrix is not what its parser does; the
  model follows the code.

## Model

| member | source | states |
|---|---|---|
| MergeSort.SortMerge | include/MathLib/MathLib.h:3215-3265 | Returns the one of the two buffers that holds all the passes applied to the input; no counter wraps for n <= 2^30. |
| MergeSort.MergePass | include/MathLib/MathLib.h:3224-3257 | One loop over the runs leaves in the other buffer exactly one pass of the source buffer. |
| MergeSort.MergeRuns | include/MathLib/MathLib.h:3226-3257 | Merging the two runs at i leaves everything outside them and, within, their merge in which ties take the right run. |
| MergeSort.MergeWhileBoth | include/MathLib/MathLib.h:3240-3241 | The merge loop fills the front of the merge and stops where one run is used up. |
| MergeSort.CopyRest | include/MathLib/MathLib.h:3243-3256 | The block copies put the rest of the one unfinished run behind it. |
| MergeSort.PassesPermute | include/MathLib/MathLib.h:3215-3265 | All passes together permute the input, whatever the comparison. |
| MergeSort.MergeTies | include/MathLib/MathLib.h:3240-3256 | Merging keeps the order of ties within a run and puts all of one run's ties before the other's, which one depending on the comparison. |
| MergeSort.PassesSort | include/MathLib/MathLib.h:3215-3265 | After all passes the elements are in order, and the ties of any element stand in the predicted order. |
| MergeSort.StrictOrderSortsAndReversesTies | include/MathLib/MathLib.h:3215-3265 | With a strict weak order the result is an ordered permutation with ties in exactly reversed input order. |
| MergeSort.PreorderSortsStably | include/MathLib/MathLib.h:3215-3265 | With a reflexive total preorder the result is an ordered permutation with ties in input order. |
| MergeSort.SizeAfterIsPower | include/MathLib/MathLib.h:3222 | What the wrapping 32-bit size is after any number of doublings: the power of two, or zero from the wrap on. |
| MergeSort.PassLoopEnds | include/MathLib/MathLib.h:3220-3222 | The loop ends exactly if its wrapped bound is at most 2^31, and ends with all n elements in one run exactly if n <= 2^30. |
| HeapSort.SortHeap | include/MathLib/MathLib.h:3164-3207 | Permutes the array for any comparison, and for a strict weak order leaves no later element ordered before an earlier one; terminates, with n <= 2^31. |
| HeapSort.Sift | include/MathLib/MathLib.h:3186-3205 | From a heap but for the hole, the inner loop makes a heap with the element put in, permuting and touching nothing beyond it. |
| HeapSort.SiftMoves | include/MathLib/MathLib.h:3191-3199 | Moving the best child up keeps the heap-but-for-the-hole invariant, with the hole at the child. |
| HeapSort.SiftStops | include/MathLib/MathLib.h:3194-3205 | Where the element does not come before the best child, putting it there completes the heap. |
| HeapSort.RootIsLast | include/MathLib/MathLib.h:3164-3207 | No element of a heap is ordered after its root. |
| HeapSort.RootMovesBehind | include/MathLib/MathLib.h:3179-3183 | Moving the root behind the heap keeps the finished tail finished and leaves a heap but for the root. |
| HeapSort.ExtractTurn | include/MathLib/MathLib.h:3171-3206 | A turn of the extracting phase keeps the invariant of the whole loop. |
| HeapSort.BuildTurn | include/MathLib/MathLib.h:3171-3206 | A turn of the building phase keeps the same invariant. |
| HeapSort.ChildIndexFits | include/MathLib/MathLib.h:3186-3187 | Every parent's child index fits 32 bits exactly if n <= 2^31. |
| FastRand.FullPeriod | include/MathLib/MathLib.h:901-906 | For every seed and k <= 32 the low k bits are back after n draws exactly if 2^k divides n. |
| FastRand.Jump | include/MathLib/MathLib.h:901-906 | m * 2^k draws move the state by 2^k times a number of m's parity. |
| FastRand.AfterPowerOfTwo | include/MathLib/MathLib.h:901-906 | After 2^k draws the multiplier is 1 modulo 2^(k+2) and the increment an odd multiple of 2^k. |
| FastRand.WordReturns | include/MathLib/MathLib.h:901-906 | The whole word returns after n draws exactly if 2^32 divides n. |
| FastRand.WordsAreDistinct | include/MathLib/MathLib.h:884-899 | No word repeats within 2^32 draws. |
| FastRand.EveryWordHasOneSeed | include/MathLib/MathLib.h:884-906 | Each word is the i-th draw of exactly one seed. |
| FastRand.FirstEight | include/MathLib/MathLib.h:884-899 | The eight words drawn by seeding are pairwise distinct. |
| FastRand.PathsAgree | include/MathLib/MathLib.h:908-957 | The 16-bit-multiply and the 32-bit-multiply path give the same lane in every state, and nothing wraps. |
| FastRand.LaneIsPowerSequence | include/MathLib/MathLib.h:917-946 | 2^(16n) times the state after n steps is congruent to the first state modulo m * 2^16 - 1. |
| FastRand.CarryStaysBelow | include/MathLib/MathLib.h:917-946 | A carry below the multiplier stays below it. |
| FastRand.CarrySettles | include/MathLib/MathLib.h:884-946 | From any seed word the carry is below the multiplier from the third step on. |
| FastRand.ZeroIsApart | include/MathLib/MathLib.h:917-946 | A lane is zero after n steps exactly if it started at zero. |
| FastRand.FixedPoints | include/MathLib/MathLib.h:911-912 | With the two multipliers used, only 0 and the modulus repeat at once. |
| FastRand.MultiplesStay | include/MathLib/MathLib.h:917-946 | After any number of steps a lane is a multiple of m * 2^16 - 1 exactly if it started as one. |
| FastRand.LaneDiesExactly | include/MathLib/MathLib.h:884-957 | With the two multipliers used, a lane stands still after three or more steps exactly if its first word is a multiple of the modulus. |
| FastRand.DeadLaneExactly | include/MathLib/MathLib.h:884-957 | The seeds whose i-th draw kills its lane, as numbers: a lane filled by that draw stands still exactly for those seeds. |
| FastRand.OutputDigits | include/MathLib/MathLib.h:952-954 | The result carries the low halves of the two states side by side, without a carry between them. |
| FastRand.Generator.constructor | include/MathLib/MathLib.h:879-882 | A new generator is seeded with the given random word. |
| FastRand.Generator.Seed | include/MathLib/MathLib.h:884-899 | The lanes hold the first eight draws in order, all different, and the scalar seed is the eighth. |
| FastRand.Generator.UI1 | include/MathLib/MathLib.h:901-906 | Draws the next word and keeps it as the state. |
| FastRand.Generator.UI4 | include/MathLib/MathLib.h:908-957 | Either instruction path takes all eight lanes one step further and joins their low halves. |
| LowDiscrepancy.RadicalInverse | include/MathLib/MathLib.h:2737-2749 | The loop returns the radical inverse of the index in any base from two. |
| LowDiscrepancy.InverseInUnit | include/MathLib/MathLib.h:2737-2749 | Every value lies in [0, 1). |
| LowDiscrepancy.InverseScaled | include/MathLib/MathLib.h:2737-2749 | Times base^k the value is the number with the last k digits reversed, plus a fraction below one. |
| LowDiscrepancy.IndexOfReversed | include/MathLib/MathLib.h:2737-2749 | Reversing the last k digits twice gives the index modulo base^k. |
| LowDiscrepancy.IntervalIsReversed | include/MathLib/MathLib.h:2737-2749 | A value lies in interval i of base^k exactly if the reversed digits of its index are i. |
| LowDiscrepancy.OnePerInterval | include/MathLib/MathLib.h:2737-2749 | Any base^k consecutive indices put exactly one value into each of the base^k equal intervals. |
| LowDiscrepancy.ReversesBits | include/MathLib/MathLib.h:2702-2711 | The five exchanges reverse the word: the row of its 32 bits comes out back to front. |
| LowDiscrepancy.ReversedBitsAreDigits | include/MathLib/MathLib.h:2702-2711 | Reversing a row of bits reverses the binary digits of its number. |
| LowDiscrepancy.BitTrickIsRadicalInverse | include/MathLib/MathLib.h:2702-2749 | For base 2 the radical inverse of every word is its reversed word over 2^32. |
| SmallFloat.ToPacked | include/MathLib/Packed.h:51-112 | The code is the nearest to the float among all codes up to infinity, ties away from zero; sign, infinities and not-a-number are carried over. |
| SmallFloat.RoundFraction | include/MathLib/Packed.h:78-89 | Adding at the highest dropped bit rounds half up, a carry going into the exponent. |
| SmallFloat.NotANumberStays | include/MathLib/Packed.h:64-75 | A not-a-number never becomes an infinity, nor the other way round, and keeps the top of its fraction where that is not zero. |
| SmallFloat.PackNormal | include/MathLib/Packed.h:76-102 | A normal float gets the nearest code, infinity when it is too large. |
| SmallFloat.PackDenormal | include/MathLib/Packed.h:103-109 | Shifting, adding a half and shifting again gives the nearest denormal code. |
| SmallFloat.BetweenMidpoints | include/MathLib/Packed.h:51-112 | A code is nearest to everything between the midpoints to its neighbours. |
| SmallFloat.PackingIsUnique | include/MathLib/Packed.h:51-112 | Only one word meets the specification of packing, so the property fixes the function. |
| SmallFloat.PackingIsMonotone | include/MathLib/Packed.h:51-112 | Of two non-negative floats, up to infinity, the larger never gets the smaller code. |
| SmallFloat.FromPacked | include/MathLib/Packed.h:114-145 | Unpacking yields exactly the value of the code, or its infinity or not-a-number pattern, with the sign. |
| SmallFloat.UnpackedIsFloat | include/MathLib/Packed.h:114-145 | The value of every finite non-zero code is that of some float, so unpacking loses nothing. |
| SmallFloat.PackUndoesUnpack | include/MathLib/Packed.h:51-145 | Packing the unpacked float gives back every code but the zeros, not-a-number payloads included. |
| Octahedral.DecodeUndoesEncode | include/MathLib/Packed.h:574-596 | In both modes and hemispheres decoding before normalisation gives the vector over the sum of its magnitudes, and the code lies in the square. |
| Octahedral.LengthDoesNotMatter | include/MathLib/Packed.h:574-583 | A vector and any positive multiple of it have the same code. |
| Octahedral.DecodeLandsOnOctahedron | include/MathLib/Packed.h:585-596 | Every point of the square decodes to a point with magnitudes summing to one. |
| Octahedral.EncodeUndoesDecodeExactly | include/MathLib/Packed.h:574-596 | A point of the square comes back exactly unless it is on the folded rim on the side of a lost sign. |
| Matrix.Float4x4.Invert | include/MathLib/MathLib_f.h:1402-1543 | For every matrix with non-zero determinant the matrix left in place is its inverse from both sides. |
| Matrix.SumOfFactors | include/MathLib/MathLib_f.h:1406-1524 | The shuffled products of two-by-two factors are the three-by-three minors of the rows left over. |
| Matrix.AdjugateFromMinors | include/MathLib/MathLib_f.h:1496-1529 | The four vectors with alternating signs are the columns of the adjugate. |
| Matrix.RowsOfAdjugate | include/MathLib/MathLib_f.h:1526-1535 | Read across, the adjugate holds the cofactors of the columns, so the code's determinant is the determinant. |
| Matrix.DeterminantOfTranspose | include/MathLib/MathLib_f.h:1531-1535 | Expanding along the first column gives the determinant by rows. |
| Matrix.AdjugateInverts | include/MathLib/MathLib_f.h:1312-1543 | The adjugate over the determinant times the matrix is the identity on both sides. |
| Matrix.ProductActs | include/MathLib/MathLib_f.h:1312-1353 | The product of two matrices does to a vector what one after the other does. |
| Matrix.InverseIsUnique | include/MathLib/MathLib_f.h:1312-1343 | A left inverse equals every right inverse, so inversion has one possible result. |
| Matrix.InverseUndoes | include/MathLib/MathLib_f.h:1312-1353 | Transforming with the inverse recovers every vector. |
| Boxes.SelectedCorner | include/MathLib/MathLib.h:2386-2389 | Blending the two ends by the mask of a plane yields the corner farthest along its normal. |
| Boxes.CornersBound | include/MathLib/MathLib.h:2386-2389 | No point of a box is farther along a normal than the farthest corner, or nearer than the nearest. |
| Boxes.CornersDecide | include/MathLib/MathLib.h:2484-2507 | One corner decides whether the whole box is strictly behind a plane, the opposite one whether it is all in front. |
| ClipPlanes.TransposedColumns | include/MathLib/MathLib_f.h:1364-1375 | Unpacking and moving halves transposes the matrix. |
| ClipPlanes.RowsClip | include/MathLib/MathLib.h:2283-2291 | The sums and differences of rows say exactly the clip inequalities, for both depth conventions. |
| ClipPlanes.CappedPlane | include/MathLib/MathLib.h:2300-2314 | Scaling keeps every point on its side, and the stand-in is used exactly if the squared normal is at most the cube of the least float. |
| ClipPlanes.MvpToPlanes | include/MathLib/MathLib.h:2278-2325 | For every matrix: each plane has every point on the side its row says, side normals have length one where the row has a normal, the near slot gets the depth row whose scaled plane is not farther from the origin than the other (on a tie the least depth), and the far plane is replaced exactly without a normal. |
| DepthPlanes.RowOfStart | include/MathLib/MathLib.h:2283-2294 | The only rows not negative exactly from z on along a unit vector u are the positive multiples of (u, -z). |
| DepthPlanes.NearAndFar | include/MathLib/MathLib.h:2300-2325 | For a projection that sees from zn to zf along any direction, in either direction of depth and both conventions, the near plane is in front exactly of what is at least zn, the far plane of what is at most zf, and the answer is true exactly if the greatest depth lies at zn; the exact condition, met if the far normal is not shorter than the least float. |
| DepthPlanes.NearWithoutFar | include/MathLib/MathLib.h:2300-2325 | For an infinite projection, reversed or not, the real plane takes the near slot; the exact condition, met up to distances of 2^126 times the empty row. |
| ClipPlanes.PlanesAreExact | include/MathLib/MathLib.h:2278-2325 | Where the side and far rows have normals, a point is in front of all six planes exactly if it is visible. |
| ClipPlanes.VisibleButForStandIn | include/MathLib/MathLib.h:2312-2315 | Where only the far row has no normal, a visible point is in front of all planes exactly if it is in front of the stand-in. |
| ClipPlanes.StandInCullsVisiblePoints | include/MathLib/MathLib.h:2312-2315 | For a concrete infinite projection every visible point on the axis beyond 2^126 is behind the far plane. |
| MaskBits.SetBit | include/MathLib/MathLib.h:2585-2599 | Or-ing 1 << i into the mask sets bit i and no other. |
| Frustum.Frustum.Setup | include/MathLib/MathLib.h:2341-2353 | For every matrix sets its six planes, near and far slots included, and masks that tell the signs of their normals. |
| Frustum.Frustum.Translate | include/MathLib/MathLib.h:2355-2361 | A point's distance from each moved plane is that of the shifted point from the old one, and the masks stay right without an update. |
| Frustum.Frustum.SetNearFar | include/MathLib/MathLib.h:2606-2610 | Changes the two distances only and keeps the masks right. |
| Frustum.Frustum.SetFar | include/MathLib/MathLib.h:2612-2615 | Changes the far distance only and keeps the masks right. |
| DepthPlanes.DistancesSet | include/MathLib/MathLib.h:2606-2615 | After setting the distances, planes with opposite normals bound what lies between the negated arguments. |
| Frustum.Frustum.CheckAabb | include/MathLib/MathLib.h:2379-2394 | For any two ends answers false exactly if some plane has the farthest corner behind it; for a box that is exactly if some plane has the whole box strictly behind it. |
| Frustum.Frustum.CheckAabbMask | include/MathLib/MathLib.h:2444-2462 | The same over the planes without a bit. |
| Frustum.Frustum.CheckAabbState | include/MathLib/MathLib.h:2484-2507 | For any two ends the state told by the farthest and the nearest corners; for a box it is out exactly if some plane has the whole box strictly behind it, in exactly if all have it in front, else partial. |
| Frustum.Frustum.CheckAabbMaskState | include/MathLib/MathLib.h:2576-2604 | The same over the planes without a bit; bits are added only for planes with the box inside, and for all of them unless the answer is out. |
| Frustum.CornersTell | include/MathLib/MathLib.h:2484-2507 | For a box the planes with its farthest corner behind are those with the whole box strictly behind, and those with its nearest corner in front have it all in front. |
| Frustum.TrueMaskIsHarmless | include/MathLib/MathLib.h:2576-2604 | With a mask that is true of the box the masked answer is the unmasked one, and the new mask is true too. |
| Frustum.MaskedChainAgrees | include/MathLib/MathLib.h:2484-2604 | Down a chain of nested boxes of any depth, from an empty mask, every box gets the answer it would get without one. |
| Frustum.TranslatedTests | include/MathLib/MathLib.h:2355-2361 | Testing a box against the moved planes is testing the moved box against the old ones. |
| Culling.TransformAabb | include/MathLib/MathLib_f.h:2251-2274 | For any two ends the new coordinates are those of the images of the nearest and farthest corners along each row; for a box the new box holds the image of every point of the old one and lies in every box that does. Both may be one object. |
| Culling.CentreSpansCorners | include/MathLib/MathLib_f.h:2251-2274 | Transforming the centre and the extents by magnitudes finds the images of those corners, for any two ends. |
| Culling.BoundsAreSmallest | include/MathLib/MathLib_f.h:2251-2274 | For a box the images of those corners bound the smallest box around the image. |
| Culling.VisibleThroughModel | include/MathLib/MathLib_f.h:1312-1362 | A point is visible through the product of view and model exactly if its image is visible through the view. |
| Culling.VisibleBoxIsKept | include/MathLib/MathLib.h:2278-2394 | A box with a visible point is never rejected by the sides and the near plane, and by the far plane exactly if that is a stand-in with the whole box behind it. |
| Culling.VisibleObjectIsKept | include/MathLib/MathLib_f.h:2251-2274 | An object with a point visible through model and view keeps its transformed box in the test. |
| BoxTriangle.BoxAxesAreSound | include/MathLib/MathLib.h:2950-2965 | The three box axes reject no triangle with a point in the box. |
| BoxTriangle.PlaneIsSound | include/MathLib/MathLib.h:2967-2988 | The plane of the triangle rejects none. |
| BoxTriangle.EdgeAxesAreSound | include/MathLib/MathLib.h:2915-2939 | The three axes across an edge reject none. |
| BoxTriangle.BoxAxes | include/MathLib/MathLib.h:2950-2965 | The first two tests reject exactly if one of the box's own axes separates the projections of triangle and box. |
| BoxTriangle.PlaneAxis | include/MathLib/MathLib.h:2967-2988 | The plane tests reject exactly if the triangle's normal separates, for non-negative extents. |
| BoxTriangle.EdgeAxesSeparate | include/MathLib/MathLib.h:2915-2939 | The shuffled test of an edge rejects exactly if its cross product with one of the box's axes separates. |
| BoxTriangle.OverlapIsNoSeparation | include/MathLib/MathLib.h:2915-3002 | The answer is true exactly if the first vertex is strictly inside or none of the thirteen axes separates. |
| BoxTriangle.RejectionIsSound | include/MathLib/MathLib.h:2941-3002 | A false answer means that no convex combination of the vertices lies in the closed box. |
| SeparatingAxes.OverlapExactly | include/MathLib/MathLib.h:2941-3002 | The answer is true exactly if the triangle, degenerate or not, and the closed box have a point in common. |
| SeparatingAxes.SeparationIsComplete | include/MathLib/MathLib.h:2950-2999 | Where none of the thirteen axes separates, some convex combination of the vertices lies in the box. |
| SeparatingAxes.ThreeParts | include/MathLib/MathLib.h:2967-2988 | Where all three kinds of faces are needed to keep triangle and box apart, the normal separates, or for a straight triangle an axis across it. |
| SeparatingAxes.TwoParts | include/MathLib/MathLib.h:2990-2999 | Where two faces and an edge are needed, an axis across an edge or a side of the box separates. |
| HalfPlanes.Helly | include/MathLib/MathLib.h:2941-3002 | Half-planes of which each three have a point in common all have one: three inequalities decide whether all nine of box and triangle hold together. |
| HalfPlanes.Farkas | include/MathLib/MathLib.h:2941-3002 | Three half-planes without a common point have non-negative weights under which they add up to a negative constant. |
| BoxTriangle.EarlyAcceptanceIsExact | include/MathLib/MathLib.h:2943-2948 | The early answer is given exactly if the first vertex is strictly inside, and then the triangle does meet the box. |
| TaskPool.NoTaskIsLostOrRepeated | scripts-common/compile_shaders.py:146-185 | In every interleaving listed, held and built tasks are together the initial ones, and tasks leave in list order. |
| TaskPool.LockExcludes | scripts-common/compile_shaders.py:154-159 | Two workers are never inside the lock, and what is read and deleted is there and unchanged. |
| TaskPool.CleanExitMeansAllBuilt | scripts-common/compile_shaders.py:633-645 | With all threads joined, terminate is false exactly if no interrupt came and every task was built once with exit code 0. |
| TaskPool.RunsAreBounded | scripts-common/compile_shaders.py:146-185 | No schedule executes more than ten statements a task and six a thread. |
| TaskPool.TerminateStops | scripts-common/compile_shaders.py:147-185 | From any state with the flag set, along any run, each worker takes at most one more task and ends at most one more build, and none if it stands at the check. |
| TaskPool.NothingAfterStop | scripts-common/compile_shaders.py:149-150 | With the flag set and every worker at the check or ended, no continuation takes or builds anything. |
| TaskPool.OneThreadStopsAtFailure | scripts-common/compile_shaders.py:146-185 | One thread builds a stretch of the list from its front, in order; only the last build can have failed, and without an interrupt all is built unless it did. |
| TaskPool.SomeWorkerCanStep | scripts-common/compile_shaders.py:146-185 | Until all threads have ended some thread can go on. |
| TaskPool.InvAlways | scripts-common/compile_shaders.py:146-185 | The invariant holds in every reachable state. |
| TaskPool.BudgetShrinks | scripts-common/compile_shaders.py:146-185 | Every statement of a worker lowers the bound on the statements left, and an interrupt never raises it. |
| TaskPool.Pool.Execute | scripts-common/compile_shaders.py:146-185 | One statement of one worker changes the shared state as the state machine says. |
| TaskPool.Pool.HandleSigint | scripts-common/compile_shaders.py:19-21 | An interrupt sets the flag. |
| TaskPool.Pool.RunAndJoin | scripts-common/compile_shaders.py:633-645 | Under any schedule all threads end after a run of the state machine, the exit status is good exactly if everything was built, and one thread stops at the first failed build. |
| VariantMatrix.ExpandVariantMatrix | scripts-common/compile_shaders.py:414-482 | The loops compute the expansion or its first error. |
| VariantMatrix.ExpandAxis | scripts-common/compile_shaders.py:437-458 | The two inner loops extend every combination by every value of the axis, or stop with the first error. |
| VariantMatrix.FinishAll | scripts-common/compile_shaders.py:460-478 | The last loop gives every combination its name and stage, or reports a missing stage. |
| VariantMatrix.SuffixExactly | scripts-common/compile_shaders.py:340-349 | A suffix is accepted exactly if it is "-" or its extension is empty or one of nine; a "-" has no part and no stage, any other what splitext gives. |
| VariantMatrix.OrderErrorExactly | scripts-common/compile_shaders.py:414-433 | The order, declared or else that of the axes, is accepted exactly if it lists every declared axis once and nothing else, and there is an axis; otherwise which error comes, and the first name it is about. |
| VariantMatrix.StopsExactlyOnConflict | scripts-common/compile_shaders.py:437-458 | Expansion succeeds exactly if all suffixes are valid and no two different axes have values with different explicit stages; with valid suffixes the error is the conflict. |
| VariantMatrix.ExpandsExactlyIf | scripts-common/compile_shaders.py:414-482 | Exactly when a matrix expands, from order to missing stage. |
| VariantMatrix.DigitsAreChoice | scripts-common/compile_shaders.py:437-458 | The mixed-radix digits of every position are a choice of values, and that choice's position is the position. |
| VariantMatrix.PositionInRange | scripts-common/compile_shaders.py:437-458 | Every choice of values has a position, with its own digits. |
| VariantMatrix.EntryCombines | scripts-common/compile_shaders.py:437-458 | The entry at a choice's position combines the values chosen: names, defines and indices in axis order after the common defines. |
| VariantMatrix.VariantHoldsDigits | scripts-common/compile_shaders.py:340-482 | Variant k holds the values at the digits of k, the first ordered axis fastest: its name the parts, its stage the extension that splitext gives of the chosen suffixes, with defines and indices. |
| VariantMatrix.EveryChoiceOnce | scripts-common/compile_shaders.py:414-482 | Every choice of values is the choice of exactly one variant. |
| VariantMatrix.WriteGroups | scripts-common/compile_shaders.py:377-403 | The nested loops write exactly the non-empty groups, ordered by axis, then value, then stage; each lists the variants of its value and stage, each once, in their order. |
| VariantMatrix.MatchingLists | scripts-common/compile_shaders.py:385-388 | The variants picked for a group stand at strictly increasing positions, which are exactly those with its value and stage. |
| VariantMatrix.WriteAxis | scripts-common/compile_shaders.py:381-403 | The groups of one axis, none empty and none missing, ordered by value and then stage, each listing exactly its variants in their order. |
| VariantMatrix.EachVariantInOneGroup | scripts-common/compile_shaders.py:377-403 | On every axis each position of the variants occurs exactly once among all groups, in that of its value and stage. |
| VariantNames.ExpandedVariantInOneGroup | scripts-common/compile_shaders.py:377-482 | The variants of an expansion are what the grouping takes, and each is listed exactly once by the groups of each axis. |
| VariantNames.JoinAppends | scripts-common/compile_shaders.py:469-471 | Each further part adds an underscore and itself to the name. |
| VariantNames.JoinTellsParts | scripts-common/compile_shaders.py:469-471 | Where no name part holds an underscore, the joined name tells the parts. |
| VariantNames.SameNameExactly | scripts-common/compile_shaders.py:460-478 | Two variants share a name exactly if their joined parts agree; without underscores in the parts, exactly if they have the same parts in the same order. |
| VariantNames.NamesDifferExactly | scripts-common/compile_shaders.py:414-478 | All names differ if no part holds an underscore, no axis has a part twice and no two axes share one; the second is always needed, and the third where every axis has a value without a part. |
| Depfile.Parse | scripts-common/depfile.py:20-62 | The nested loops over lines and characters return what the character machine returns. |
| Depfile.ParsedIsText | scripts-common/depfile.py:25-28 | Reading line by line is reading the whole text, with a missing last line end supplied. |
| Depfile.NameIsRead | scripts-common/depfile.py:30-40 | An escaped name of any characters but line ends is read back whole. |
| Depfile.Escaped | scripts-common/depfile.py:30-40 | A backslash makes any character plain and drops a line end. |
| Depfile.DollarIsRead | scripts-common/depfile.py:30-40 | Two dollars are one, and a dollar before any other character stands for itself. |
| Depfile.ColonIsRead | scripts-common/depfile.py:56-60 | Any unescaped colon files the word before it as a target, in the dependencies too. |
| Depfile.GapIsRead | scripts-common/depfile.py:30-47 | Any mixture of blanks and folded line ends separates exactly if it holds a blank. |
| Depfile.RuleIsRead | scripts-common/depfile.py:29-61 | A printed rule returns its dependencies if a target read from it matches, the empty one of a blank before the colon included, and otherwise leaves the start state. |
| Depfile.ParseUndoesPrint | scripts-common/depfile.py:20-62 | From any printed rules, however folded, exactly the dependencies of the first rule with a target read that matches come back, and none if there is none; that is the first rule with a printed target that matches, if the condition below holds. |
| Depfile.RightRuleExactly | scripts-common/depfile.py:20-62 | The rule found is the first with a printed target that matches exactly if the empty name does not match or no earlier rule has a blank before its colon. |
| MaxMip.LevelKeepsMax | scripts-common/generate_max_mip.py:49-60 | If each texel is the greatest of its source block, so is each texel one level down, in blocks twice as large along every side above one. |
| MaxMip.ReshapeFails | scripts-common/generate_max_mip.py:51-59 | A level fails to reshape only at an odd side above one. |
| MaxMip.StuckIsNoPower | scripts-common/generate_max_mip.py:49-75 | A side whose halving gets stuck was no power of two. |
| MaxMip.AppendLevel | scripts-common/generate_max_mip.py:67-74 | The slice assignment stores the level where it fits, keeps all earlier ones, and raises no error. |
| MaxMip.GenerateMaxMip | scripts-common/generate_max_mip.py:63-75 | Completes exactly if both sides are powers of two; then every level that starts within the atlas stands there with the maximum over its whole source block in each texel and zeros below, and the last level is one by one. |
| MaxMip.StartsOfPower | scripts-common/generate_max_mip.py:66-74 | Level k starts at column 2 cols - 2 cols / 2^k, and the last ends at 2 cols - 1. |
| MaxMip.SizesOfPower | scripts-common/generate_max_mip.py:71-72 | Side lengths and block sizes of every level, in closed form. |
| MaxMip.LevelCount | scripts-common/generate_max_mip.py:95 | The number of levels is the larger binary logarithm of the sides, plus one. |
| MaxMip.ColumnsAreFilled | scripts-common/generate_max_mip.py:66-74 | Every column of the atlas belongs to exactly one level. |
| MaxMip.AllLevelsFitExactly | scripts-common/generate_max_mip.py:66-74 | All levels start within the atlas exactly if rows <= cols. |
| TextureCache.Cache.constructor | include/gli/texture.hpp:220-254 | The triple loop fills slot after slot, each with the storage's address for its image; level sizes and extents are those of storage, and the memory size is the sum of the window's images. |
| TextureCache.CachedAddressIsOffset | include/gli/texture.hpp:257-272 | For every image of the window the table gives the address the storage formula gives, and its memory size. |
| TextureCache.OrderIsExact | include/gli/texture.hpp:281-284 | The index lies within the table and tells layer, face and level: no two images share one. |
| TextureCache.OrderIsOnto | include/gli/texture.hpp:281-284 | Every slot is the index of an image. |
| TextureCache.Storage.BaseOffset | include/gli/core/storage_linear.inl:95-108 | The loop adds up to the closed form of the offset. |
| TextureCache.Storage.FaceSize | include/gli/core/storage_linear.inl:158-171 | The size of a face is the sum of its levels. |
| TextureCache.Storage.LayerSize | include/gli/core/storage_linear.inl:173-185 | The size of a layer is that of a face times the faces. |
| TextureCache.OffsetIsSum | include/gli/core/storage_linear.inl:95-108 | An image's offset is the size of all images before it in order of layer, face and level. |
| TextureCache.ImagesFillStorage | include/gli/core/storage_linear.inl:15-28 | The sizes of all images add up to what the storage is resized to. |
| TextureCache.ImagesApart | include/gli/core/storage_linear.inl:95-156 | The bytes of two different images never overlap and none lies outside the storage. |
| TextureCache.EveryByteHasAnImage | include/gli/core/storage_linear.inl:15-28 | Every byte of the storage belongs to an image. |
| TextureCache.ImagesAreDisjoint | include/gli/core/storage_linear.inl:95-156 | No byte of the storage belongs to two images. |
| TextureCache.LevelMeasures | include/gli/core/storage_linear.inl:60-156 | Each side of a level is the greatest number of steps of 2^level that fit into the side of the storage, but at least one; its block counts are the least that cover it, and its size is that of all its blocks. |
| TextureCache.OneSideAt | include/gli/core/storage_linear.inl:67-72 | Only one number is such a side. |
| TextureCache.PowerSideAt | include/gli/core/storage_linear.inl:67-72 | Sides that are powers of two go down by halves to one. |
| TextureCache.Covers | include/gli/core/storage_linear.inl:60-65 | Rounding up to a multiple of the block and dividing gives the least count of blocks that cover a side. |
| TextureCache.FormatExtentMeasures | include/gli/texture.hpp:244-251 | The extent kept for a level is the greatest that fits the level scaled from blocks of the storage to blocks of the format, but at least one. |
| TextureCache.LevelIsNotEmpty | include/gli/core/storage_linear.inl:60-72 | Each level has at least one block, so no image is empty. |

## Left out

- SmallFloat.ToPacked: takes floats of magnitude from 2^-45 up, infinities and not-a-number; below that, and for zero, the source shifts by more than 31, which C++ does not define.
- SmallFloat.PackUndoesUnpack: leaves the two zero codes out for the same reason, and reads the unpacked value as any float equal to it.
- SmallFloat.FromPacked: its multiplications and divisions are exact here; the sign of a zero result is not represented.
- Octahedral.DecodeUndoesEncode: stops before the final normalisation, which scales by a positive number.
- Matrix.Float4x4.Invert: takes the reciprocal as exact and leaves out the zero determinant, by which the source divides.
- ClipPlanes.MvpToPlanes: takes square roots and reciprocal square roots as exact; of a side plane whose row has no normal it says only that the plane has none, because the source's reciprocal root of zero is infinite.
- Frustum.Frustum.Setup: does not keep the transposed copy of the side planes, which nothing reads.
- SeparatingAxes.OverlapExactly: takes extents that are not negative, half the sides of a box.
- LowDiscrepancy.RadicalInverse: exact arithmetic; the float error of the source's `idx * rcpBase` is not modelled. Bases below two are excluded: base 1 never leaves the loop, base 0 has no reciprocal.
- TextureCache.Cache.constructor: sizes do not wrap; a window has at most 16 levels, the length of the source's fixed arrays, where the source asserts a bound on the extent instead.
- MaxMip.GenerateMaxMip: images of three dimensions with at least one row and column; element types beyond bytes are not modelled.
- Rounding, not-a-number and negative zero in the geometric code, apart from the sign of zero in `Octahedral`.
- The retry loop of a build: it makes one attempt, so it is one step; thread identity, printing and its lock are left out, as are the tests of which tasks need building.
- The text of the variant header (labels, tokens, sorted stages, continuation backslashes) and the parsing of matrix declarations; `splitext` and `basename` are parameters.
- Spheres and capsules against the frustum, and the projection decomposition: they add easy members or have no crisp specification.
- The double-precision mirror of the matrix code, the remaining enum tables and loaders of the texture library, and all input and output.
