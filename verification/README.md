# A verified model of the Coffer enclave runtime

Coffer runs programs inside RISC-V enclaves. This project models the parts of its enclave runtime whose correctness
is least evident from reading the code, and proves what those parts promise:

- **ECC for attestation** (`Arith`, `Divisors`, `Bits`, `Limbs`, `Vli`, `VliMul`, `Reduce`, `ModInv`, `ModMult`,
  `Field`, `Curve`, `Degenerate`, `Points`, `Group`, `CurvePoints`, `PointMult`, `Fermat`, `Sqrt`, `EccBytes`,
  `EcdsaScalars`, `DoubleScalar`, `Collisions`, `Ecdsa`): the P-256 arithmetic on arrays of 64-bit limbs, from carry chains up to
  signing and verifying bytes.
- **The enclave heap** (`HeapMem`, `HeapLists`, `HeapLayout`, `HeapBins`, `Heap`, `HeapRun`): boundary tags, segregated sorted
  bins, splitting, coalescing and growth, up to whole runs of a client.
- **Virtual memory** (`Sizes`, `PagePool`, `PageTree`, `PageTable`, `ProgramBreak`, `BrkGrants`): Sv39 tables built from a bump
  pool, and the program break on top of them.
- **MD2** (`Md2Spec`, `Md2`), **RAM files** (`Uio`, `RamFile`) and **path conversion** (`PathSpec`, `PathConv`).

The model keeps the form of the code. Limb buffers, hash contexts and path buffers are arrays updated in place; the
heap, the page table, the pools, the program break and the RAM file are classes; the loops of the code are loops with
invariants. Each method is proved against a function or predicate that does not mention it.

## How the pieces are described

**Numbers.** `Val(a)` is the number in four limbs. Wrap-around at 64 and 128 bits is written out, so that dropped
carries are dropped in the model as well.

**Points.** `IsP256(c)` collects the facts about the curve that the point routines rely on and that no code computes:
the modulus is prime, the points form an abelian group, and the sum of two points is given by the chord or the
tangent. `IsBase` adds that the base point has prime order n. The routines are proved to compute that group, and what
they do where the co-Z formulas fail is proved as well. In the ladder, registers that are opposite points collapse to
(0, 0) and a point of the cusp y^2 = x^3, stay there, and end as (0, 0); `Safe` says which scalars avoid that. In the
double multiplication of verification a degenerate step makes z zero, z stays zero, and the signature is rejected;
`NoCollision` says which runs have no such step, and for a key d G `NoCollisionIs` says it in numbers: with a and t the
multiples of G held and selected at a bit, n divides neither a nor, if a bit is set, any of t, 2a - t and 2a + t.

**Heap memory.** Memory is the headers, footers and payload bytes it holds, keyed by address; a write erases whatever
it overlaps. An invariant that survives therefore also says that no tag or payload was overwritten. `Core(ex)` is the
heap invariant, with the headers in `ex` allowed to be in another bin than their own for the moment; `Valid` is
`Core` without exceptions, with a large last chunk that is a hole and with every partition mapped exactly once.

**Page tables.** `Translate` is the partial map the tables denote; `Tree` says where each table page hangs, and
`Made` is the set of those positions. For the program break, `Required` is the set of positions that mapping up to a
given front passes through, so what is missing of it is what the table pool has to pay for.

Where the code does not do what one would expect, the model does what the code does and the exact condition is
proved:

- an allocation keeps the last chunk of the heap a hole if and only if it does not use that chunk up (`Exhausts`);
- freeing the first chunk panics if and only if that chunk is empty;
- the ladder multiplies by `k + 2` for `k < 2` (`LadderScalar`) and returns (0, 0) for `k = n - 1` and for a point
  with x = 0, so between 1 and n - 1 it computes `k P` if and only if `2 <= k <= n - 2` and x(P) is not zero
  (`OutcomeExact`);
- a signature under a matching key is accepted if and only if s is not zero and no step of the verification is
  degenerate, except that a nonce congruent to 1 commits to 3 G instead of G (`SignThenVerify`);
- modular multiplication shifts the modulus out of its buffer if and only if the product is more than 256 bits longer
  than the modulus (`ShiftedModulus`);
- the power taken as square root is a root if and only if there is one; decompression gives an unreduced y if and only
  if the right-hand side of the curve equation is zero and an odd y is asked for, which no point of odd order is;
- raising the program break succeeds if and only if the table pool can serve the tables that are still missing, and a
  whole run if and only if it can for the last one (`Run`);
- lowering the program break unmaps nothing, and what is mapped still agrees with it if and only if the page, or beyond
  the heap start the partition, it rounds up to stays the same (`Lowered`);
- partitions for the break that are granted in pieces are mapped correctly inside the range, and nothing is mapped
  behind it if and only if there is one piece (`OverrunExact`);
- a write to a RAM file leaves the buffer if and only if its end is above `LONG_MAX`, where the end turns negative
  (`Write`, `WrapExample`);
- a truncated RAM file is zero past its end if and only if the bytes cut off, or those of the new buffer, happen to be
  zero or the length is 0 (`Truncate`);
- a converted path loses its terminator behind the buffer if and only if `Overflows`: from a directory other than the
  root, the lengths add up to `PATH_MAX - 1` and the path consists of names and does not start with a dot;
- a relative path that starts with a name beginning with a dot is glued to the working directory, and the result is
  the right directory if and only if it is not glued or its segments lead up to the root (`RightDirectory`).

## Model

| member | source | states |
|---|---|---|
| Vli.IsZero | emodules/emod_manager/attest/ecc.c:146-157 | true exactly for the number 0 |
| Vli.TestBit | emodules/emod_manager/attest/ecc.c:160-163 | selects the bit of the whole number at any of the 256 positions |
| Vli.NumBits | emodules/emod_manager/attest/ecc.c:166-197 | the bit length of the number, 0 for 0 |
| Vli.Cmp | emodules/emod_manager/attest/ecc.c:210-225 | the sign of the comparison of the two numbers |
| Vli.Lshift | emodules/emod_manager/attest/ecc.c:228-240 | result plus carry times 2^256 is the input times 2^shift, in place as well |
| Vli.Rshift1 | emodules/emod_manager/attest/ecc.c:243-255 | halves the number, rounding down |
| Vli.Add | emodules/emod_manager/attest/ecc.c:258-272 | the exact sum, with the carry as the 257th bit, for any aliasing of the operands |
| Vli.Sub | emodules/emod_manager/attest/ecc.c:275-289 | the exact difference, with the borrow, for any aliasing of the operands |
| Vli.ModAdd | emodules/emod_manager/attest/ecc.c:446-454 | the sum modulo m, also for a 256-bit operand that is not reduced |
| Vli.ModSub | emodules/emod_manager/attest/ecc.c:457-465 | the difference modulo m of reduced operands |
| VliMul.ColumnsAreProduct | emodules/emod_manager/attest/ecc.c:294-317 | the weighted column sums that the loops form are the product of the two numbers |
| VliMul.Mult | emodules/emod_manager/attest/ecc.c:294-317 | the exact 512-bit product; the 192-bit accumulator loses no carry |
| VliMul.HalfColumnIsColumn | emodules/emod_manager/attest/ecc.c:320-346 | half a column with its terms doubled is the whole column |
| VliMul.Square | emodules/emod_manager/attest/ecc.c:320-346 | the exact 512-bit square |
| VliMul.SquareAgreesWithMult | emodules/emod_manager/attest/ecc.c:294-346 | squaring and multiplying by itself write the same limbs |
| Reduce.ShuffledTerms | emodules/emod_manager/attest/ecc.c:546-604 | the nine shuffled terms of appendix D.2.3 of FIPS 186-4 differ from the product by a multiple of p |
| Reduce.Correct | emodules/emod_manager/attest/ecc.c:606-619 | the two correction loops terminate and leave the residue below p for any signed carry |
| Reduce.MmodFast | emodules/emod_manager/attest/ecc.c:541-620 | product mod p for every 512-bit product |
| ModInv.EvenStep | emodules/emod_manager/attest/ecc.c:729-755 | halving a keeps u times input congruent to a although the carry of u + m is put back as the top bit |
| ModInv.OddStep | emodules/emod_manager/attest/ecc.c:756-793 | subtracting keeps both congruences and the greatest common divisor although u + m - v may wrap |
| ModInv.Iterate | emodules/emod_manager/attest/ecc.c:727-794 | one round keeps both congruences and the common divisor and strictly lowers a + b, so the loop ends |
| ModInv.Invert | emodules/emod_manager/attest/ecc.c:709-797 | for every input and odd modulus, result times input is congruent to their greatest common divisor, and the result is below the modulus |
| ModMult.ShiftedModulus | emodules/emod_manager/attest/ecc.c:1148-1161 | m times 2^shift; the limbs written stay inside the eight of the buffer exactly for shifts of at most 256 bits |
| ModMult.FullLengthModulus | emodules/emod_manager/attest/ecc.c:1123-1161 | every pair of 256-bit operands is within that bound for a 256-bit-long modulus |
| ModMult.Step | emodules/emod_manager/attest/ecc.c:1163-1183 | one subtract-and-halve round keeps product below twice the shifted modulus and congruent to left times right |
| ModMult.Multiply | emodules/emod_manager/attest/ecc.c:1123-1185 | left times right mod m, with the buffer kept exactly when the product is at most 256 bits longer than m |
| Curve.AddOnCurve | emodules/emod_manager/attest/ecc.c:897-918 | co-Z addition stays on the curve at z(x2 - x1), and so does the first point it rescales |
| Curve.DoubleOnCurve | emodules/emod_manager/attest/ecc.c:812-858 | doubling stays on the curve with new z = y z |
| Curve.AddRep | emodules/emod_manager/attest/ecc.c:897-918 | co-Z addition computes the chord law on the affine points |
| Curve.DoubleRep | emodules/emod_manager/attest/ecc.c:812-858 | doubling computes the tangent law on the affine point |
| Curve.RepNormalise | emodules/emod_manager/attest/ecc.c:861-869 | scaling by the inverse of z gives the affine point |
| Degenerate.Opposite | emodules/emod_manager/attest/ecc.c:924-954 | the conjugate formulas take opposite points to (0, 0) and a point of y^2 = x^3 |
| Degenerate.FromZero | emodules/emod_manager/attest/ecc.c:924-954 | adding a point of y^2 = x^3 to (0, 0) gives (0, 0) |
| Degenerate.ToZero | emodules/emod_manager/attest/ecc.c:897-918 | adding (0, 0) to a point of y^2 = x^3 gives (0, 0) and moves the point along that cusp |
| Points.DoubleJacobian | emodules/emod_manager/attest/ecc.c:812-858 | the limb code computes the doubling formulas, and leaves a zero z alone |
| Points.ApplyZ | emodules/emod_manager/attest/ecc.c:861-869 | (x z^2, y z^3) |
| Points.AddCoZ | emodules/emod_manager/attest/ecc.c:897-918 | the limb code computes the co-Z sum and the rescaled first point |
| Points.AddCoZConjugate | emodules/emod_manager/attest/ecc.c:924-954 | the limb code computes the difference and the sum at one z |
| Group.LadderStep | emodules/emod_manager/attest/ecc.c:971-979 | a ladder step takes the pair (j P, (j+1) P) to the pair for 2j or 2j + 1 and keeps R1 - R0 = P |
| Group.Ladder | emodules/emod_manager/attest/ecc.c:957-996 | over any abelian group the ladder ends with k P for k >= 2 and (k + 2) P for k < 2 |
| Group.Shamir | emodules/emod_manager/attest/ecc.c:1282-1308 | over any abelian group the interleaved loop ends with u1 G + u2 Q for scalars not both zero |
| CurvePoints.SameX | emodules/emod_manager/attest/ecc.c:897-954 | two points with one x are equal or opposite, which is when the co-Z formulas fail |
| CurvePoints.AddPoints | emodules/emod_manager/attest/ecc.c:897-918 | the limbs of P and Q become those of P and P + Q at a new nonzero z; collapsed coordinates stay collapsed |
| CurvePoints.ConjugatePoints | emodules/emod_manager/attest/ecc.c:924-954 | the limbs of P and Q become those of P - Q and P + Q at a new nonzero z; opposite points and collapsed coordinates leave collapsed ones |
| CurvePoints.DoublePoint | emodules/emod_manager/attest/ecc.c:812-858 | the limbs of P become those of 2 P; (0, 0) at z = 0 stays so |
| PointMult.InitialDouble | emodules/emod_manager/attest/ecc.c:872-894 | P and 2 P at one z, for a given or a unit z; collapsed registers for a zero z |
| PointMult.Step | emodules/emod_manager/attest/ecc.c:971-976 | one concrete ladder step on the four registers: the multiples for 2j + b, or collapsed registers exactly if n divides 2j + 1 or they were collapsed before |
| PointMult.InvertF | emodules/emod_manager/attest/ecc.c:709-797 | the inverse of a field element, and 0 for 0 |
| PointMult.LastPair | emodules/emod_manager/attest/ecc.c:978-990 | the last step and the z recovered from the input point give the result and its inverse z, which is 0 exactly for collapsed registers or x(P) = 0 |
| PointMult.Multiply | emodules/emod_manager/attest/ecc.c:957-996 | for every scalar and point of odd order n: the affine coordinates of LadderScalar(k) P, or (0, 0) if a step finds opposite registers, x(P) = 0 or the given initial z is 0 in the field |
| PointMult.SafeBelow | emodules/emod_manager/attest/ecc.c:971-979 | below the order only n - 1 makes a step find opposite registers |
| PointMult.OutcomeExact | emodules/emod_manager/attest/ecc.c:957-996 | between 1 and n - 1 the result is k P exactly when 2 <= k <= n - 2 and x(P) is not 0; it is (0, 0) for n - 1 and for x(P) = 0 |
| Sqrt.ModSqrt | emodules/emod_manager/attest/ecc.c:1027-1044 | a^((p+1)/4) mod p by square and multiply |
| Sqrt.EulerOfRoot | emodules/emod_manager/attest/ecc.c:1027-1044 | a nonzero square has quadratic character 1, by Fermat's little theorem |
| Sqrt.RootIsRoot | emodules/emod_manager/attest/ecc.c:1027-1044 | that power squares to a exactly when a is a square |
| Sqrt.DecompressY | emodules/emod_manager/attest/ecc.c:1047-1063 | y has the requested parity, is unreduced exactly for a zero right-hand side and an odd request, and is on the curve exactly when the right-hand side is a square |
| EccBytes.Bytes2Native | emodules/emod_manager/attest/ecc.c:998-1007 | the limbs hold the 32-byte big-endian number |
| EccBytes.Native2Bytes | emodules/emod_manager/attest/ecc.c:1009-1024 | the bytes that read back as the number |
| EcdsaScalars.SignScalar | tools/sign/ecc.c:1227-1233 | s k is congruent to e + r d modulo n for every 256-bit hash, also e >= n; s is 0 for k = 0 |
| EcdsaScalars.VerifyScalars | emodules/emod_manager/attest/ecc.c:1266-1270 | u1 s and u2 s are congruent to e and r modulo n |
| EcdsaScalars.SignVerifyAgree | tools/sign/ecc.c:1227-1233 | u1 + u2 d is congruent to the nonce whenever s is coprime to the order (sections 4.1.3 and 4.1.4 of SEC 1) |
| DoubleScalar.AddAffine | emodules/emod_manager/attest/ecc.c:1299-1306 | adds an affine point to the point at z; z becomes 0 exactly if the x coordinates agree or z was 0 |
| DoubleScalar.Round | emodules/emod_manager/attest/ecc.c:1292-1307 | one round doubles and adds the selected point; z becomes 0 exactly if the step is degenerate or z was 0 |
| DoubleScalar.Combine | emodules/emod_manager/attest/ecc.c:1282-1308 | the limb code of the interleaved loop ends with u1 G + u2 Q, which is not zero, if no step is degenerate, and with z = 0 otherwise |
| Collisions.StepOkIs | emodules/emod_manager/attest/ecc.c:1292-1307 | a step of the loop is degenerate exactly if n divides the multiple held, or, with a point selected, its multiple, or twice the one held less or plus the other |
| Collisions.NoCollisionIs | emodules/emod_manager/attest/ecc.c:1282-1308 | for the key d G no step is degenerate exactly if that holds at no bit of the two scalars |
| Ecdsa.BaseOnCurve | emodules/emod_manager/attest/ecc.c:1047-1056 | the base point satisfies the curve equation, by computation with the constants of the code |
| Ecdsa.Decompress | emodules/emod_manager/attest/ecc.c:1047-1063 | decompression recovers the point whose compressed form it is given |
| Ecdsa.CommitmentIs | emodules/emod_manager/attest/ecc.c:1216-1223 | r is x(k G) mod n for 2 <= k <= n - 2, 0 for n - 1, and that of k + 2 for 0 and 1 |
| Ecdsa.Sign | emodules/emod_manager/attest/ecc.c:1192-1237 | uses the first of at most sixteen random numbers that is not 0 and gives a nonzero r, reduced modulo n; r is its commitment and s solves the signing equation |
| Ecdsa.Recombine | emodules/emod_manager/attest/ecc.c:1272-1317 | x(u1 G + u2 Q) mod n, or 0 if a step is degenerate |
| Ecdsa.Verify | emodules/emod_manager/attest/ecc.c:1239-1321 | accepts exactly when r and s are in range, no step is degenerate and the x of u1 G + u2 Q mod n is r; for Q = d G exactly when the scalars are clear in numbers and the x of (u1 + u2 d) G mod n is r |
| Ecdsa.SignedMatches | emodules/emod_manager/attest/ecc.c:1192-1321 | the verifier's comparison succeeds for a signature with s > 0 exactly if no step with its scalars is degenerate, and for a nonce congruent to 1 also x(G) mod n = r |
| Ecdsa.SignThenVerify | emodules/emod_manager/attest/ecc.c:1192-1321 | a signature verifies under the matching public key exactly when its s is not 0 and the scalars of the verifier are clear for d in numbers; a nonce congruent to 1 also needs x(G) mod n = r |
| HeapMem.GetBinIndex | emodules/emod_alloc/heap.c:484-492 | the shift loop computes the size class |
| HeapMem.BinIndexMonotone | emodules/emod_alloc/heap.c:484-492 | larger sizes are in the same or a later class |
| HeapMem.BinRange | emodules/emod_alloc/heap.c:484-492 | class 0 holds the sizes below 8, class b those from 2^(b+2) below 2^(b+3), the last all from 2^45 on |
| HeapLists.AfterInsert | emodules/emod_alloc/llist.c:5-41 | relinking around a new node makes the doubly linked list with it inserted, and touches no other bin |
| HeapLists.AfterRemove | emodules/emod_alloc/llist.c:43-65 | relinking around a node makes the list without it, whatever the back link of the head says |
| HeapModel.Heap.AddNode | emodules/emod_alloc/llist.c:5-41 | the bin gains the node behind exactly the nodes that are not larger, in the order they were; only links change |
| HeapModel.Heap.RemoveNode | emodules/emod_alloc/llist.c:43-65 | the bin loses exactly the node, and nothing changes if it is not there |
| HeapModel.Heap.GetBestFit | emodules/emod_alloc/llist.c:67-92 | the smallest node of the bin that fits and the first of them, or null exactly if none fits |
| HeapModel.Heap.SearchFitNode | emodules/emod_alloc/heap.c:157-179 | a smallest hole of the entire heap that fits, with its bin, or null exactly if no hole fits |
| HeapModel.Heap.constructor | emodules/emod_alloc/heap.c:108-155 | one mapped partition that is one hole, and the whole invariant |
| HeapModel.Heap.Expand | emodules/emod_alloc/heap.c:427-478 | the last chunk grows by sz for any grants; exactly the partitions reached are mapped, each once; live payloads are kept |
| HeapModel.Heap.EveryByteBacked | emodules/emod_alloc/heap.c:427-457 | every byte of the heap lies in a mapped partition, and the partitions do not overlap |
| HeapModel.Heap.FindHole | emodules/emod_alloc/heap.c:196-207 | a hole that fits, found at once or after growth; the increment does not underflow and the second search succeeds |
| HeapModel.Heap.SplitChunk | emodules/emod_alloc/heap.c:211-225 | the hole becomes two tagged holes that tile it, the rest in the bin of its size |
| HeapModel.Heap.Take | emodules/emod_alloc/heap.c:211-228 | the hole is allocated with at most 44 bytes to spare, in no bin, and other live payloads are kept |
| HeapModel.Heap.Alloc | emodules/emod_alloc/heap.c:190-258 | a new live chunk taken from the first of the smallest fitting holes; the exact chunks, last chunk and end of the heap afterwards (Allocated); all other live chunks keep place and contents; the heap is valid afterwards exactly if the request does not use up the last chunk |
| HeapBins.AllocatedGrowth | emodules/emod_alloc/heap.c:196-243 | the sizes after an allocation, and when and by how much the heap grows: what was short plus 64 KiB, and what the last chunk lacks of 64 KiB |
| HeapBins.FreshAllocated | emodules/emod_alloc/heap.c:190-258 | a first request splits off exactly its size and leaves the end of the heap where it is |
| HeapBins.FreshHeapExhausts | emodules/emod_alloc/heap.c:139-233 | on a fresh heap exactly the requests that leave at most 44 bytes use up the last chunk |
| HeapModel.Heap.Calloc | emodules/emod_alloc/heap.c:359-364 | as Alloc, with the requested bytes zero |
| HeapModel.Heap.MergeBack | emodules/emod_alloc/heap.c:389-401 | the chunk and the hole before it become one chunk, out of the bins |
| HeapModel.Heap.MergeNext | emodules/emod_alloc/heap.c:403-419 | the chunk and the hole after it become one chunk, out of the bins |
| HeapModel.Heap.Free | emodules/emod_alloc/heap.c:366-425 | exactly the chunk stops being live, it joins the holes before and after it unless it is the first, everything else is kept; panics exactly for an empty first chunk |
| HeapLayout.FreedSize | emodules/emod_alloc/heap.c:366-425 | the hole that freeing leaves has the bytes of the chunk and of the holes next to it with their tags; for the first chunk of that chunk alone; every other chunk is unchanged |
| HeapLayout.FooterBefore | emodules/emod_alloc/heap.c:381-382 | the footer just below a chunk that is not the first names the chunk before it |
| HeapLayout.TilesExactly | emodules/emod_alloc/heap.c:190-258 | an address is in the heap exactly if it is in a chunk, and then in only one |
| HeapRun.Step | emodules/emod_alloc/heap.c:190-425 | one client operation keeps memory in agreement with the ledger of owned blocks and written bytes |
| HeapRun.Run | emodules/emod_alloc/heap.c:108-425 | for every script on a fresh heap: owned blocks are disjoint and every byte reads as last written, until the heap is used up or panics |
| PagePool.Pool.Alloc | emodules/emod_manager/memory/page_pool.c:100-133 | hands out exactly the next pages, or panics exactly if fewer are left, so no page is handed out twice |
| PageTree.NoSharing | emodules/emod_manager/memory/page_table.c:24-63 | two pointer entries that name one page are the same entry |
| PageTree.LookupVia | emodules/emod_manager/memory/page_table.c:24-63 | a walk from the root passes through the table at each position on the way |
| PageTree.WriteKeepsTree | emodules/emod_manager/memory/page_table.c:88-130 | writing a leaf or clearing an entry leaves a tree of the tables not below it |
| PageTree.GrowKeepsTree | emodules/emod_manager/memory/page_table.c:34-40 | hanging a zeroed page below an invalid entry leaves a tree |
| PageTree.LookupWritten | emodules/emod_manager/memory/page_table.c:88-130 | after a write exactly the addresses through that entry look up differently |
| PageTree.SameBlockIs | emodules/emod_manager/memory/page_table.c:188-207 | addresses through one entry are the aligned block of its level within 39 bits |
| PageTree.ExtendedSlots | include/memory/page_table.h:77-100 | sign extension from bit 38 changes no table index |
| PageTable.MaskedSlots | emodules/emod_manager/memory/page_table.c:155-160 | the masks of the walk select the indices of get_vpn |
| PageTable.Table.AddTable | emodules/emod_manager/memory/page_table.c:34-40 | a new table from the pool changes no translation |
| PageTable.Table.GetLeafPte | emodules/emod_manager/memory/page_table.c:24-63 | reaches the entry of the address without changing any translation; adds exactly the missing tables on the way and takes as many pages; panics exactly if too few pool pages are left, or, without allocation, if an entry on the way is invalid |
| PageTable.Table.MissingIs | emodules/emod_manager/memory/page_table.c:24-63 | the positions missing on the way to an entry are as many as the levels the walk does not reach |
| PageTable.Table.MapPage | emodules/emod_manager/memory/page_table.c:88-117 | the block translates to pa plus offset; v, a and d are set and each of r, w, x, u, g is its own flag or the bit of a leaf that was there; every other address translates as before, the tables stay a tree, and exactly the missing tables are taken from the pool |
| PageTable.Table.UnmapPage | emodules/emod_manager/memory/page_table.c:119-130 | exactly the block stops translating; panics exactly if it has no entry |
| PageTable.Table.WalkPageTable | emodules/emod_manager/memory/page_table.c:153-186 | finds the leaf that the tree denotes for the address, or none |
| PageTable.Table.GetPa | emodules/emod_manager/memory/page_table.c:188-207 | page number times 4096 plus the offset in the block of the leaf's level, or 0 for an address that is not mapped |
| ProgramBreak.Brk.constructor | emodules/emod_manager/memory/memory.c:108-114 | the initial break lies the remaining pool below the heap start |
| ProgramBreak.Brk.MapBlocks | emodules/emod_manager/memory/memory.c:240-291 | consecutive blocks become user read/write and not executable, at consecutive physical addresses from pa on, exactly if the pool can serve the tables they cross; those tables are made, and no other address changes |
| ProgramBreak.Brk.MapFromPool | emodules/emod_manager/memory/memory.c:240-252 | the mapped region grows by the next pages of the pool, in order, exactly if the missing tables are affordable |
| ProgramBreak.Brk.MapOutsidePool | emodules/emod_manager/memory/memory.c:256-291 | the mapped region grows by whole partitions at the physical addresses granted, exactly if the missing tables are affordable |
| ProgramBreak.Brk.Lowered | emodules/emod_manager/memory/memory.c:293-352 | the invariant holds for a lower break exactly if the end of what is mapped for it is the same |
| ProgramBreak.Brk.SysBrk | emodules/emod_manager/memory/memory.c:293-352 | for a query, a raised or a lowered break: raising succeeds exactly if the missing tables are affordable, and takes exactly those; new addresses are backed by the pool below the heap start and by the grant above it, and no other address changes; the region invariant holds afterwards exactly unless the front fell |
| ProgramBreak.FrontIs | emodules/emod_manager/memory/memory.c:307-332 | the end of what is mapped for a break is the first page end, or from the heap start on the first partition end, not below it |
| ProgramBreak.Run | emodules/emod_manager/memory/memory.c:293-352 | a run of requests and queries that never lowers the front succeeds exactly if the tables for its last front are affordable at the start, answers each request, takes exactly those tables, and backs each address above the heap start by the grant of the request that reached it |
| ProgramBreak.Brk.RequiredCount | emodules/emod_manager/memory/memory.c:293-352 | the number of tables: two if pages below the heap start are mapped, and one per gigabyte above it |
| BrkGrants.MapGrants | emodules/emod_manager/memory/memory.c:256-291 | for partitions granted in any pieces: succeeds exactly if the tables for all it maps are affordable, and then the range and as much behind it translate as Placed says, nothing else changing |
| BrkGrants.PlacedIs | emodules/emod_manager/memory/memory.c:256-291 | inside the range each partition is placed in its piece; behind it as many partitions are placed as were granted before the last piece |
| BrkGrants.OverrunExact | emodules/emod_manager/memory/memory.c:276-283 | nothing is mapped behind the range exactly if it is granted in one piece |
| ProgramBreak.Brk.MappedOnce | emodules/emod_manager/memory/memory.c:293-352 | every address up to the break is user read/write and covered by exactly one mapping |
| ProgramBreak.Brk.OwnByte | emodules/emod_manager/memory/memory.c:240-252 | below the heap start different addresses of the break have different bytes of the pool, as far apart as the addresses |
| ProgramBreak.ExactlyOnce | emodules/emod_manager/memory/memory.c:240-352 | blocks mapped end to end cover each address of their range exactly once and no other |
| ProgramBreak.BootPool | emodules/emod_manager/boot/boot.c:164-173 | the pool set up at boot is a whole number of pages and less than a partition |
| ProgramBreak.PoolBelowPartition | emodules/emod_manager/memory/memory.c:319-346 | a pool below a partition is exactly what keeps requests that the pool serves from mapping partitions as well |
| Md2.ChecksumsAgree | emodules/emod_manager/attest/md2.c:44-60 | the blockwise checksum is the bytewise one of section 3.2 of RFC 1319 |
| Md2.SweepThree | emodules/emod_manager/attest/md2.c:95-109 | three passes over 16 bytes are one pass over the 48-byte buffer |
| Md2.Context.UpdateChecksum | emodules/emod_manager/attest/md2.c:44-60 | the checksum bytes after one block |
| Md2.Context.ProcessBlock | emodules/emod_manager/attest/md2.c:76-112 | the hash and the checksum each advance by one block |
| Md2.Context.Update | emodules/emod_manager/attest/md2.c:114-156 | consuming m and then data is consuming m + data |
| Md2.Context.Final | emodules/emod_manager/attest/md2.c:158-182 | the digest that the two-pass definition gives for the message consumed |
| Md2.HashChunks | emodules/emod_manager/attest/md2.c:114-196 | any cut of a message into chunks gives the two-pass digest of the whole message |
| Uio.MoveOut | emodules/emod_vfs/vfs/uio.h:74-119 | the first min(n, resid) bytes of the vectors become those of the buffer, the rest is kept, bytes moved leave resid and enter the offset; terminates despite empty vectors |
| Uio.MoveIn | emodules/emod_vfs/vfs/uio.h:74-119 | the same towards the buffer, which changes nowhere else |
| RamFile.Node.Read | emodules/emod_vfs/ramfs/ramfs_vnops.c:388-422 | stores what fits of the rest of the file, and nothing else; the error cases |
| RamFile.Node.Extend | emodules/emod_vfs/ramfs/ramfs_vnops.c:472-515 | the file grows by zeros, in its buffer if it fits and otherwise in one of the exact new size, and is zero past its end; an end above LONG_MAX turns negative and keeps the buffer |
| RamFile.Node.Write | emodules/emod_vfs/ramfs/ramfs_vnops.c:448-534 | the contents are patched at the offset or at the end, with zeros in a gap; the error cases; the write leaves the buffer exactly if a regular file is given a valid offset and data that ends above LONG_MAX |
| RamFile.WrapExample | emodules/emod_vfs/ramfs/ramfs_vnops.c:461-530 | two bytes at LONG_MAX - 1 pass every test and leave the buffer |
| RamFile.Node.Truncate | emodules/emod_vfs/ramfs/ramfs_vnops.c:319-360 | for every length: the file is cut off or lengthened, by zeros in the old buffer and by whatever a new one holds; it stays zero past its end exactly if the bytes cut off, or those of the new buffer, are zero |
| RamFile.Run | emodules/emod_vfs/ramfs/ramfs_vnops.c:319-534 | any run of writes, appends and truncations leaves the reference sequence, up to the first operation that writes within 101 partitions of LONG_MAX |
| PathSpec.CompsOfDir | emodules/emod_vfs/vfs/task.c:56-124 | the components of a written path are the stack it was written from |
| PathSpec.NormalLast | emodules/emod_vfs/vfs/task.c:92-112 | the last segment acts on the directory the others lead to: a name is pushed, a dot stays, two dots go up but not above the root |
| PathConv.PopName | emodules/emod_vfs/vfs/task.c:92-104 | scanning back drops exactly the last name |
| PathConv.Segment | emodules/emod_vfs/vfs/task.c:92-112 | one segment changes the text as it changes the stack; behind two dots there is a slash exactly at the root |
| PathConv.Walk | emodules/emod_vfs/vfs/task.c:87-121 | the loop ends with the text of the resulting stack, inside the buffer, and uses all its room exactly if the rest of the path consists of names |
| PathConv.Convert | emodules/emod_vfs/vfs/task.c:56-124 | for every path: too long exactly by the length test; otherwise the text is that of the stack of Result, with a final slash exactly if the path ends in one, in two dots that lead to the root, or in a dot that is not the whole path or is seen from the root; the terminator fits exactly unless Overflows |
| PathConv.OverflowExample | emodules/emod_vfs/vfs/task.c:68-121 | from /a, a name of 4093 characters passes the length test and overruns the buffer by its terminator |
| PathConv.FixedPoint | emodules/emod_vfs/vfs/task.c:56-124 | a converted path denotes its own stack and ending |
| PathConv.ConvertTwice | emodules/emod_vfs/vfs/task.c:56-124 | converting a terminated result gives the same bytes |
| PathConv.RightDirectory | emodules/emod_vfs/vfs/task.c:80-85 | the result is the directory the path names exactly if its first name is not glued or its segments reach the root |
| PathConv.DotNameGlued | emodules/emod_vfs/vfs/task.c:80-85 | one name with a leading dot extends the name of the working directory |

## Left out

- Ecdsa.Sign: random numbers come in as a parameter; the first is required to be nonzero, because for zero the code tests a coordinate that was never set.
- Ecdsa.Verify: a key whose x is that of the base point is left out, because the table entry for the sum is then (0, 0), which is no point.
- Ecdsa.Decompress: a key whose x is that of no curve point is left out; `DecompressY` says when this is so, and the code does not look.
- The facts in `IsP256` and `IsBase` (primality, the group law, the order of the base point) are hypotheses of the lemmas and methods; they are not proved here.
- ECC routines for other curve sizes, the build without 128-bit integers, key generation and shared secrets.
- HeapModel.Heap.Alloc: addresses and sizes are unbounded, so overflow of 64-bit sums and of number times size in Calloc is not modelled.
- What happens after the last chunk of the heap is used up: the invariant that later operations need no longer holds, and runs stop there.
- `heap_memalign`: leftover slivers get no header or footer, so the chunks no longer tile the heap.
- The physical side of heap growth: the monitor is an oracle that grants 1 to left partitions, and mapping a partition is recorded by its address.
- PageTable.Table.MapPage: requires one of R, W, X and no leaf of a larger block on the path, which the code does not check; fresh pool pages are zero.
- PageTable.Table.GetLeafPte: requires that no leaf of a larger block is on the path; the code would read the block as a table.
- PageTable.Table.UnmapPage: requires that no leaf of a larger block is on the path, as GetLeafPte does.
- PageTable.Table.GetPa: pages are numbers without a width; `ppn << 12` of a bit-field is taken as 64-bit arithmetic.
- TLB flushes, the linear map offset added to table pointers, and section, stack and emodule mappings.
- ProgramBreak.Brk.SysBrk: partitions are granted in full (`MapGrants` is about pieces); the range reserved for the break is unmapped at the start and inside 39 bits; the pool and the grant are page aligned and inside the 56-bit physical address space; after a failure for want of table pages, where the code panics, and after a request that lowers the front nothing further is promised.
- BrkGrants.MapGrants: as many partitions behind the range as in it are required to be unmapped.
- Null pointer returns of the MD2 functions.
- RamFile.Node.Write: requests are at most INT_MAX bytes and their vectors do not overlap, as sys_write and sys_read ensure for the length; running out of memory is a parameter, and no buffer is larger than LONG_MAX; after a write that leaves the buffer nothing is promised; times are left out.
- RamFile.Run: truncations in a run are to length 0.
- RamFile.Node.Truncate: negative lengths are left out.
- Directories, names, links and the vnode cache of the RAM file system.
- PathConv.Convert: the working directory is given by its names.
- `mmap`, scatter/gather lists of the network port, file descriptor tables, boot, traps, ecalls and host messages.
