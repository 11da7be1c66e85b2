# Syndrome in Dafny

Syndrome is a forward-error-correction library. This project models the parts of it where correctness is
hardest to see from the code, and proves what those parts are for: decoders that restore what an encoder
sent, fast forms that equal slow ones, shared storage that behaves like private storage, and a
multi-threaded protocol that keeps its books in every interleaving.

To verify everything: `dafny verify dfyconfig.toml`.

## How the pieces fit

**Polar codes** (`Polar*.dfy`, `StableSort.dfy`, `CopyOnWrite.dfy`). `PolarTransform` gives the generator
recursion `T` and proves the in-place butterfly against it. `PolarSc` is the successive-cancellation
recursion `Sc`, first as a function, then as the code's recursion over one shared scratch buffer.
`PolarScl` is the list recursion `Scl` on independent copies, `PolarRows` what one path sees of its
per-level arrays, `CopyOnWrite` the sharing of arrays between paths, and `PolarArena` the ping-pong arena
that refines `Scl` through that sharing. `PolarList` holds the laws of the list (the metric identity, order,
completeness), `PolarOrder` exactly when the list can be out of order, `PolarCodec` what all this means for
messages, `PolarBest` what the answer is worth at every list size, and `PolarDecoder` the encoder and decoder
objects.

**Fields and algebraic decoding** (`Gf*.dfy`, `BerlekampMassey.dfy`, `Bch*.dfy`). `Gf256` proves the laws of
shift-and-add multiplication, `GfOrbit` that alpha has order 255 for both field polynomials used by the
library, `GfTables` that the `exp`/`log` tables compute the field. `GfPoly` has root bounds and independence
of power sums. On these rest Berlekamp-Massey, the BCH generator (`BchSingle` computes the one for t = 1), encoder,
decoder, shortened codes and Chase-II.

**CCSDS Reed-Solomon** (`Ccsds*.dfy`, `Forney.dfy`): generator, shift-register encoder, syndromes, the other
formulation of Berlekamp-Massey, root search, Forney's error values, block decoding, interleaving;
`CcsdsGenerator` shows which polynomial the generator is.
`CcsdsBeyond` and `CcsdsCodec` say what an accepted answer is worth when more symbols are wrong than the code
corrects, and `CcsdsFalseAccept` gives the words that are accepted as they are without being codewords.

**CRC** (`Lfsr.dfy`, `Crc.dfy`): the bit-serial register, the table form, and error detection.

**QC-LDPC** (`Ldpc*.dfy`): the graph layout, the closed-form encoder and exactly when it is right
(`LdpcPairing`), the Gauss-Jordan generator, and the fixed-point layered decoder with its invariants;
`LdpcNarrow` is a run in which a narrow accumulator loses a filler, `LdpcWrapper` what the 5G wrapper overwrites and
that erasures never mislead it.

**Rate matching and HARQ** (`SelectionWalk.dfy`, `RateMatching.dfy`, `RateMatchCache.dfy`): the guarded
circular walk, the interleaver pair, the index cache, and the accumulator; `RateMatchPositions` tells all of it by
codeword index.

**Pipeline** (`Pipeline.dfy`): the ownership protocol of the threaded decoder as a state machine over all
interleavings, and the pipeline object whose methods are its steps and which carries the log of them.

`Options`, `Modulo` and `Reals` hold what several parts share.

## Representation

- A bit is a `bool` and a bit string a `Word`; the source stores one bit per `u8`. Where it refuses bytes other
  than 0 and 1 (the BCH encoders) the message is a sequence of numbers. Machine words used as shift registers or
  packed rows (`u32`, `u64`, `u128`) are bit words of the same length.
- A field element is a byte seen as its eight bits. Arrays that the source keeps as logarithms with a
  sentinel for zero (`src/ccsds_rs.rs`) hold the elements themselves; the exponent arithmetic is modelled
  where the tables are looked up.
- Float LLRs are exact reals. The fixed-point LDPC decoder is integer in the source and here: the 8-bit
  clamp, the 16-bit saturating add and the posterior clamp are written out.
- Flat two-dimensional buffers (`syn_pow`, `mul_beta`, the LDPC posterior and message buffers) are rows; flat
  position `c * z + j` is cell `(c, j)`.
- `Rc` cells cloned and mutated through `Rc::make_mut` are a store of arrays with one pointer per path and
  level; `MakeMut` copies exactly when the pointer is shared.
- `sort_by` is a stable order. The rings between threads are first-in first-out queues of capacity 16 whose
  operations are atomic. A submit's push and its counter update are one step, which is sound because only the
  caller reads or writes the counters.
- The reliability order and the base graphs are parameters. Facts needed about them are stated as
  hypotheses.
- Rust errors are result datatypes; a buffer written on the error path is described where the code
  promises something about it.

## Where code and comments disagree

- "Ordered by path metric" (`src/polar.rs:1621`): the list is in order for all LLRs if and only if leaf N-1 is an
  information bit, or no leaf is, or the list has room for one path only (`PolarOrder.OrderedIff`). With the
  standard's reliability order leaf N-1 is always free when there is a message
  (`PolarCodec.TableFreesTheLastLeaf`), so the masks that break the order come only from another order of
  positions; `PolarCodec.FrozenLastLeafBreaksTheOrder` computes the smallest one through.
- The adaptive ladder costs "under 2L" (`src/polar.rs:1669-1671`) exactly when L is a power of two; the bound
  that always holds is 3L: `PolarDecoder.LadderCost`.
- The derivation of the closed-form LDPC encoder (`src/qc_ldpc.rs:2148-2157`) needs equal shifts in each paired
  column and core rows that stay inside the core columns; `derive` checks neither. `LdpcPairing.PairingIsNeeded`
  and `LdpcPairing.StayingInsideIsNeeded` are graphs it accepts on which the encoder is wrong. The exact
  conditions, all on the graph alone: row 3 holds for all information sums if and only if the shifts are paired
  (`LdpcPairing.RowThreeIffPaired`); with core rows inside and sums that take every value every message encodes
  to a codeword if and only if they are (`LdpcPairing.EncodesIffPaired`); and on any accepted graph every message
  does if and only if the messages with a single one do (`LdpcPairing.UnitsDecide`).
- Cached and direct rate matching are documented as equivalent. They are exactly when the walk's guard does not cut
  it short: `RateMatchCache.MatchAgreesIff` for sending, `RateMatchCache.CachedDematchAgreesIff` for receiving,
  `RateMatchCache.BufferAgreesIff` for the HARQ buffer. Past the guard the cache adds the cut-off values to
  position 0 (`RateMatchCache.CachedDifference`); `RateMatchCache.CacheDiffersPastTheGuard` is a key, 102 bits of
  BG2 at z = 1.
- The CCSDS decoder accepts when the root search finds `deg_lambda` roots (`src/ccsds_rs.rs:469-471`) and never
  compares `deg_lambda` with the length `el` of Berlekamp-Massey. The word it then leaves is a codeword if and
  only if the two are equal (`CcsdsCodec.AcceptedIffFullLength`). Words for which they differ exist: every word whose
  only non-zero syndrome is S_k with k at most 15 is answered with zero corrections and left as it is
  (`CcsdsFalseAccept.SingleSyndromeIsAccepted`), and there is one for each such k and each value of the syndrome
  (`CcsdsFalseAccept.FalseAcceptance`). The refusal at a vanishing derivative (`src/ccsds_rs.rs:515-517`) never
  happens (`CcsdsBeyond.SplitDivides`).
- 127 per incident check is named as all that messages can take from a filler (`src/qc_ldpc.rs:1437-1445`).
  A message goes from 127 to -127 between iterations, so where the clamp cuts off what it added it takes up to
  254: `LdpcDecoder.FillerDecodesToZero` holds from 254 times the degree on. At degree one that is exact:
  `LdpcNarrow.NarrowClampLosesTheFiller` is a run that loses the filler for every clamp from 127 to 253. Where no
  received value contradicts the codeword, 127 times the degree is enough (`LdpcWrapper.NeverMisled`).
- The bit interleaver is documented as that of section 5.4.2.2 of TS 38.212 (`src/rate_matching.rs:99-108`), which puts
  bit i E/Qm + j at i + j Qm. The code puts bit i Qm + j at i + j E/Qm, the inverse order; `deinterleave_f32` is the
  standard's. The two agree on all inputs if and only if Qm or E/Qm is at most 1 or they are equal
  (`RateMatchPositions.InterleavingIsStandardIff`).
- `decode_full` leaves flipped bits behind when it fails (`src/bch.rs:922-929`), so `BchDecoder.DecodeFull`
  promises nothing about the buffer then; the shortened decoder works on a copy and does leave it unchanged.
- Dropping the pipeline is documented as draining it (`src/ldpc_pipeline.rs:579-589`). Frames of a worker
  that has already seen an empty ring are abandoned: `Pipeline.DropDrainsIff` gives the exact condition and
  `Pipeline.LateSubmitIsAbandoned` an interleaving.

## Model

| member | source | states |
|---|---|---|
| PolarTransform.TransformInPlace | src/polar.rs:250-264 | the three nested butterfly loops leave the recursive transform of the input |
| PolarTransform.TransformInvolution | src/polar.rs:250-264 | the transform is its own inverse at every power of two, which is how the list decoder recovers its decisions |
| PolarTransform.CombineIsTransform | src/polar.rs:436-442 | folding two finished halves gives the transform of their concatenation |
| PolarTransform.GeneratorEntry | src/polar.rs:250-264 | row j of the generator has a one in column i exactly when the binary digits of i are among those of j: it is the Kronecker power of the kernel |
| PolarSc.FKernel | src/polar.rs:387-396 | the min-sum kernel over two adjacent halves of a shared buffer; nothing outside the destination changes |
| PolarSc.GKernel | src/polar.rs:414-423 | the same for the g kernel, reading the left half's partial sum in place |
| PolarSc.BetaCombine | src/polar.rs:436-442 | the second half is folded into the first in place; nothing else changes |
| PolarSc.ScDecodeRecursive | src/polar.rs:526-592 | at every node the decoded bits are the recursion's, the partial sum is their transform, cells outside the node and scratch below its base are untouched, whatever the scratch held |
| PolarSc.ScNoiseless | src/polar.rs:526-592 | LLRs with a codeword's signs and no zeros decode to its message, whatever their magnitudes |
| PolarSc.ScRespectsMask | src/polar.rs:526-592 | frozen positions are decided zero |
| CopyOnWrite.WriteIsPrivate | src/polar.rs:899-951 | writing through one path's pointer changes that path at that level and nothing any other path sees |
| CopyOnWrite.CloneIsCopy | src/polar.rs:939-951 | cloning pointers makes the destination see what the source sees |
| CopyOnWrite.SortingMovesViews | src/polar.rs:1005-1023 | sorting the pointers reorders what the slots see and nothing else |
| StableSort.BestAreBest | src/polar.rs:1005-1023 | sort and truncate: kept metrics ascend, nothing is kept twice, and no dropped path is better than a kept one |
| StableSort.OrderIsStable | src/polar.rs:1005-1023 | equal metrics keep the order of their indices |
| PolarArena.LazySclArena.constructor | src/polar.rs:968-979 | one live path holding the channel LLRs and metric zero |
| PolarArena.LazySclArena.FBranchAll | src/polar.rs:1065-1131 | every live path gets the left child's LLRs at the next level, and nothing else changes in any path |
| PolarArena.LazySclArena.GBranchAll | src/polar.rs:1065-1131 | every live path gets the right child's LLRs, each from its own partial sum |
| PolarArena.LazySclArena.CombineAll | src/polar.rs:1065-1131 | every live path folds its two partial sums |
| PolarArena.LazySclArena.FreezeAll | src/polar.rs:1065-1131 | a frozen leaf decides zero on every path and charges the penalty |
| PolarArena.LazySclArena.ForkAtLeaf | src/polar.rs:1005-1037 | the live paths become the best forks in metric order, through the ping-pong buffers and shared arrays |
| PolarArena.LazySclArena.DecodeRecursive | src/polar.rs:1065-1131 | after any subtree the shared arrays denote the list that the copying recursion computes, levels above the subtree untouched |
| PolarRows.NodeRows | src/polar.rs:1263-1348 | composing both branches of a node on private rows gives the list of the whole node |
| PolarList.KernelIdentity | src/polar.rs:387-423 | penalties after f and g add up to the penalty before them, zero LLRs included |
| PolarList.MetricIsDisagreement | src/polar.rs:1025-1037 | for every size, mask, list and pruning history a survivor's metric is its starting metric plus the weighted disagreement of its re-encoded decisions with the LLRs |
| PolarList.SortedIfLastLeafIsFree | src/polar.rs:1005-1023 | the list is in metric order when the last leaf is an information bit, whatever its size and the LLRs |
| PolarOrder.OrderedIff | src/polar.rs:1621 | the final list is in metric order for all LLRs if and only if the last leaf is free, or no leaf is, or there is room for less than two paths |
| PolarOrder.ZerosStayFirst | src/polar.rs:1065-1131 | with the last leaf frozen and all LLRs equal and negative the all-zero path stays first through every subtree, though it ends as the most expensive |
| PolarOrder.TwoSurvive | src/polar.rs:1005-1023 | one free leaf and room for two paths leave at least two |
| PolarList.NoOverflow | src/polar.rs:1005-1023 | with room for every fork nothing is pruned: the list has exactly one entry per choice of the free bits |
| PolarList.Reaches | src/polar.rs:1065-1131 | with that room every word obeying the mask survives |
| PolarList.SurvivorsDiffer | src/polar.rs:1065-1131 | no two survivors are the same continuation of the same path |
| PolarList.ListOfOneIsSc | src/polar.rs:1580-1593 | the list recursion with one path makes the decisions of plain successive cancellation, ties at zero included |
| PolarCodec.ExpandExtract | src/polar.rs:339-364 | a message placed at the free positions reads back, and respects the mask |
| PolarCodec.ExtractExpand | src/polar.rs:1641-1648 | a word that respects the mask is rebuilt from its free positions |
| PolarCodec.MaskHasK | src/polar.rs:193-214 | an order without repetitions that lists enough positions frees exactly k of them |
| PolarCodec.NothingBetterIsFrozen | src/polar.rs:193-214 | no frozen position comes after a freed one in the reliability order |
| PolarCodec.CandidateCost | src/polar.rs:1600-1651 | every path of the final list is a message whose metric is the channel disagreement of its codeword |
| PolarCodec.FullListIsMaximumLikelihood | src/polar.rs:1580-1651 | with room for all 2^K messages and a free last leaf the answer costs no more than any message the CRC accepts |
| PolarBest.AnswerIsCheapest | src/polar.rs:1619-1640 | at every list size the flag says whether some candidate passes the CRC, and with a free last leaf the message costs no more than any candidate that passes, or than any at all when none does |
| PolarBest.CheaperIsLikelier | src/polar.rs:1025-1037 | costing less is correlating better with the channel values |
| PolarCodec.TruePathLeads | src/polar.rs:1065-1131 | over LLRs with the codeword's signs the true path is first after every subtree, for every list size |
| PolarCodec.NoiselessRoundTrip | src/polar.rs:1580-1651 | over such a channel encode then decode returns the message, at every list size and with any CRC it satisfies |
| PolarCodec.TableFreesTheLastLeaf | src/polar.rs:193-214 | an order whose last entry below n is n-1 leaves the last leaf free whenever there is a message |
| PolarCodec.FrozenLastLeafBreaksTheOrder | src/polar.rs:1621 | a two-leaf mask, reachable only with an order of positions other than the standard's, and LLRs for which the first path is not the best one |
| PolarDecoder.NewEncoder | src/polar.rs:307-318 | accepted exactly for a power of two above k; the mask then frees k leaves under the hypotheses on the order |
| PolarDecoder.NewDecoder | src/polar.rs:1429-1460 | accepted exactly for a power of two above k and a list of at least one |
| PolarDecoder.Encode | src/polar.rs:339-364 | the transform of the placed message, or a length error that leaves the buffer alone |
| PolarDecoder.PolarDecoder.DecodeSc | src/polar.rs:1476-1518 | the successive-cancellation message in the output buffer, independent of what the scratch held before; either length error leaves the buffer alone |
| PolarDecoder.PolarDecoder.DecodeSclAt | src/polar.rs:1580-1651 | the first candidate in list order that passes the CRC, otherwise the first candidate; the flag says whether one passes; with a free last leaf the message is the cheapest of those, or of all if none passes |
| PolarDecoder.PolarDecoder.DecodeScl | src/polar.rs:1544-1564 | that answer at the configured list size, the cheapest candidate that passes or of all if none does when the last leaf is free, or either length error, in the code's order |
| PolarDecoder.PolarDecoder.DecodeSclAdaptive | src/polar.rs:1734-1764 | the answer of the first rung whose CRC passes, or of the configured size when all fail, with the number of attempts, in both cases the cheapest eligible candidate of its rung when the last leaf is free; refused without a CRC, and with either length error |
| PolarDecoder.LadderCost | src/polar.rs:1734-1764 | climbing to the top costs below 3L always, and below 2L if and only if L is a power of two |
| Gf256.MulAssoc | src/bch.rs:145-152 | shift-and-add multiplication modulo the field polynomial is associative |
| Gf256.MulDistrib | src/bch.rs:145-152 | and distributes over exclusive or on both sides |
| GfOrbit.BothPrimitive | src/bch.rs:330-344 | alpha has order exactly 255 for the field polynomials 0x11D and 0x187 |
| GfOrbit.ExpSurjective | src/bch.rs:330-344 | every non-zero byte is a power of alpha |
| GfTables.BuildTables | src/bch.rs:330-344 | the table loops produce all powers, doubled, and their logarithms |
| GfTables.GfMul | src/bch.rs:145-152 | looking up the sum of logarithms is multiplication, zeros included |
| GfTables.GfInv | src/bch.rs:161-165 | the lookup is the multiplicative inverse |
| GfPoly.Independent | src/bch.rs:791-845 | weights whose power sums at distinct points vanish for as many consecutive exponents are all zero |
| GfPoly.RootBound | src/bch.rs:889-904 | a polynomial with as many distinct roots as coefficients vanishes everywhere |
| BerlekampMassey.FindLocator | src/bch.rs:791-845 | a locator found has constant term 1, degree at most L at most t, generates syndromes L to 2t-1, and no shorter recurrence does; failure means no non-empty pattern of at most t errors explains the syndromes |
| BerlekampMassey.MasseyStep | src/bch.rs:814-829 | a recurrence of length L that first fails at n forces length n+1-L on every recurrence that does not |
| BerlekampMassey.LengthStaysBelow | src/bch.rs:814-843 | the length never exceeds the number of errors behind the syndromes |
| BerlekampMassey.LocatorRoots | src/bch.rs:889-904 | for at most t errors the locator's length is their number and its roots are exactly the inverse locators |
| BchGenerator.CyclotomicCoset | src/bch.rs:170-183 | the coset doubles modulo 255 until it first comes back to its start, within its eight-entry buffer |
| BchGenerator.CycleIsBinary | src/bch.rs:193-229 | a product of linear factors closed under squaring has only zero and one as coefficients |
| BchGenerator.MinimalPoly | src/bch.rs:193-229 | the bits read off are the product over the coset |
| BchGenerator.ValueMulBits | src/bch.rs:361-370 | the value of the carry-less product of two bit polynomials is the product of their values |
| BchGenerator.RootDoubles | src/bch.rs:170-183 | a bit polynomial with root alpha^e has root alpha^(2e): roots come in cosets |
| BchGenerator.CosetCounts | src/bch.rs:353-372 | an exponent not yet covered has a whole new coset: covered exponents grow by exactly its size |
| BchGenerator.NothingSmaller | src/bch.rs:346-373 | once the covered exponents number the degree, no non-zero bit polynomial of smaller degree vanishes at alpha^1 to alpha^2t |
| BchGenerator.BuildGenerator | src/bch.rs:346-373 | the generator is monic of the returned degree, alpha^1 to alpha^2t are its roots, and no non-zero bit polynomial of smaller degree has them |
| BchSingle.GeneratorForOne | src/bch.rs:330-373 | for t = 1 the generator has exactly the exponents 0, 2, 3, 4 and 8: it is the field polynomial |
| BchDecoder.BuildSynPow | src/bch.rs:388-395 | row r holds the weight of every position in syndrome 2r+1 |
| BchDecoder.BuildMulBeta | src/bch.rs:400-406 | row u multiplies every byte by alpha^u |
| BchSound.SyndromeSquares | src/bch.rs:736-781 | syndrome 2j of a bit word is the square of syndrome j |
| BchDecoder.OddSyndrome | src/bch.rs:736-781 | four interleaved accumulators and a three-position tail add up to the word's value at alpha^(2r+1) |
| BchDecoder.Syndromes | src/bch.rs:736-781 | four accumulators and repeated squaring give all 2t values of the word, and the flag tells whether any is non-zero |
| BchDecoder.EvaluateAt | src/bch.rs:889-904 | Horner through the row for alpha^u is the locator's value there |
| BchDecoder.ChienSearch | src/bch.rs:889-904 | flips exactly the positions whose inverse locator is a root and returns their number |
| BchTheory.MaskIsError | src/bch.rs:889-904 | for at most t errors those positions are the error pattern |
| BchSound.MaskExplains | src/bch.rs:908-932 | when the search finds as many roots as the locator's length, the flips account for every syndrome |
| BchDecoder.DecodeFull | src/bch.rs:908-932 | accepts exactly the words within distance t of a codeword, leaves that codeword and returns the distance |
| BchCodec.New | src/bch.rs:322-440 | accepts exactly t from 1 to 10 and builds the tables and a generator of least possible degree, so k is as large as it can be |
| BchCodec.LfsrRemainder | src/bch.rs:523-550 | leading bits one by one, then bytes by table, equal the bit-serial register |
| BchCodec.SystematicIsCodeword | src/bch.rs:583-604 | message then remainder, with or without an implicit zero prefix, vanishes at all 2t powers |
| BchCodec.Encode | src/bch.rs:583-604 | writes the message and its parity, a codeword, or refuses a wrong length or a byte other than 0 and 1 and writes nothing |
| BchCodec.ShortenedEncode | src/bch.rs:643-677 | the same for a shortened message: a codeword once the omitted zeros are put back; refusals in the code's order |
| BchCodec.CorrectsUpToT | src/bch.rs:908-932 | for every codeword and every error pattern of weight w at most t the decoder returns w and the codeword |
| BchCodec.AcceptsIffNear | src/bch.rs:908-932 | decoding succeeds if and only if some codeword is within distance t |
| BchCodec.ShortenedDecode | src/bch.rs:1187-1214 | bounded-distance decoding of shortened words; on failure the caller's buffer is unchanged |
| BchChase.Chase2 | src/bch.rs:1060-1143 | the result correlates best with the channel values among all codewords that go against at most t of them outside the p weak positions; failure means there is no such codeword and leaves the hard decision; values with a codeword's signs give that codeword at no cost; on a tie the first pattern wins; the numbers of accepted patterns and of flips; both refusals |
| BchChase.WeakAreWeakest | src/bch.rs:1088-1096 | no position outside the p weak ones is less reliable, and of equally reliable ones the lower counts as weaker |
| BchChase.CandidateIffReached | src/bch.rs:1103-1113 | the codewords that some flip pattern reaches are exactly those that go against at most t channel values outside the weak positions |
| BchChase.LightestIsLikeliest | src/bch.rs:1116-1128 | least analog weight is best correlation, stated without the hard decision |
| BchChase.CleanIsChosen | src/bch.rs:1083-1128 | values that spell a codeword without a zero give it back with weight zero |
| BchChase.SentIsCandidate | src/bch.rs:1060-1143 | with at most t errors outside the p weakest positions the sent codeword is a candidate, so the result weighs no more |
| Lfsr.ChunkStep | src/crc.rs:258-304 | consuming w bits at once is a shift plus the effect of the leaving bits xor the chunk on an empty register |
| Lfsr.BuildTable | src/crc.rs:194-227 | entry n is what the bits of n do to an empty register |
| Lfsr.TableStep | src/crc.rs:258-304 | one lookup equals w bit-serial steps |
| Lfsr.ShortWordShows | src/crc.rs:119-127 | no non-zero string of at most L bits leaves an empty register empty |
| Crc.Crc.constructor | src/crc.rs:194-227 | the tables belong to the kind's polynomial and length |
| Crc.Crc.Compute | src/crc.rs:258-304 | byte or nibble path plus tail equals the bit-serial register, at every length |
| Crc.Crc.Attach | src/crc.rs:323-329 | appends that remainder |
| Crc.Crc.Check | src/crc.rs:342-352 | true exactly when the string is long enough and its own remainder is zero |
| Crc.CheckIsDivisibility | src/crc.rs:342-352 | comparing the remainder with the received parity is testing the whole string for remainder zero |
| Crc.AttachedPasses | src/crc.rs:323-352 | whatever was attached passes |
| Crc.BurstIsCaught | src/crc.rs:342-352 | every non-zero error confined to L consecutive bits is rejected, at every length and position, for all six kinds |
| Crc.OddErrorIsCaught | src/crc.rs:84-93 | polynomials with an even number of terms reject every error of odd weight |
| Crc.EvenPolynomials | src/crc.rs:84-93 | those are CRC24A, CRC24B and CRC16 |
| Crc.RemainderOfOne | src/crc.rs:84-93 | each kind's polynomial has exactly the exponents that section 5.1 of TS 38.212 lists |
| LdpcGraph.BuildLayout | src/qc_ldpc.rs:281-319 | every row block's slice of the layout is exactly its entries, in list order |
| LdpcGraph.FromRawEdges | src/qc_ldpc.rs:412-455 | accepts exactly the lists whose lifting size, rows, columns and shifts are in range |
| LdpcEncoder.RotlXorInto | src/qc_ldpc.rs:2167-2181 | two contiguous spans xor in the rotated block |
| LdpcEncoder.RotlAssign | src/qc_ldpc.rs:2185-2193 | the same for assignment |
| LdpcEncoder.CoreEntries | src/qc_ldpc.rs:2224-2237 | the first four entries in the four core columns, which are all of them when there are at most four |
| LdpcEncoder.ShiftFor | src/qc_ldpc.rs:2241-2243 | nothing exactly when no entry has the offset, otherwise the shift of one that has |
| LdpcEncoder.ShiftForFirst | src/qc_ldpc.rs:2241-2243 | the entry found is the first one at the offset |
| LdpcEncoder.Derive | src/qc_ldpc.rs:2282-2363 | returns a layout exactly when the graph has the core and extension pattern that it checks |
| LdpcEncoder.AccumulateLambda | src/qc_ldpc.rs:2200-2218 | a row's sum over the message columns |
| LdpcEncoder.SolveCore | src/qc_ldpc.rs:2637-2682 | the four core blocks satisfy the closed-form equations |
| LdpcEncoder.ExtensionBlock | src/qc_ldpc.rs:2705-2726 | an extension row's parity block is its sum over message and core blocks |
| LdpcEncoder.EncodeSparse | src/qc_ldpc.rs:2620-2727 | the buffer keeps its message blocks and holds the closed-form parity of them |
| LdpcEncoder.CodewordIffNoResidual | src/qc_ldpc.rs:2684-2698 | with core rows inside the core columns the output satisfies every check if and only if row 3 is left with nothing, in terms of the solved blocks |
| LdpcEncoder.EncodedIsCodeword | src/qc_ldpc.rs:2620-2727 | with equal paired shifts and core rows inside the core columns every message encodes to a codeword |
| LdpcPairing.RowThreeIffPaired | src/qc_ldpc.rs:2148-2157 | the closed form satisfies row 3 for all information sums if and only if p2, p3 and p4 each have equal shifts |
| LdpcPairing.SumsAreSolved | src/qc_ldpc.rs:2637-2682 | any four core blocks are the solution of some information sums |
| LdpcPairing.SolvesUnique | src/qc_ldpc.rs:2637-2682 | information sums have one solution |
| LdpcPairing.CodewordIffBeyond | src/qc_ldpc.rs:2620-2727 | on every accepted graph the output is a codeword if and only if rows 0 to 2 collect nothing beyond the core columns and row 3 collects its residual there |
| LdpcPairing.EncodesIffPaired | src/qc_ldpc.rs:2282-2363 | with core rows inside and information sums that take every value, every message encodes to a codeword if and only if the shifts are paired |
| LdpcPairing.OwnColumnsSuffice | src/qc_ldpc.rs:2200-2218 | the sums take every value when each core row has a message column of its own |
| LdpcPairing.EncodedAdds | src/qc_ldpc.rs:2620-2727 | the encoder is linear |
| LdpcPairing.EncodedUnique | src/qc_ldpc.rs:2620-2727 | a message has one encoding |
| LdpcPairing.UnitsDecide | src/qc_ldpc.rs:2282-2363 | on every accepted graph every message encodes to a codeword if and only if every message with a single one does |
| LdpcPairing.PairingIsNeeded | src/qc_ldpc.rs:2282-2363 | a graph with unequal shifts that `derive` accepts and a message whose encoding fails a check |
| LdpcPairing.StayingInsideIsNeeded | src/qc_ldpc.rs:2282-2363 | a graph with paired shifts and a core row beyond the core columns that `derive` accepts and a message whose encoding fails a check |
| LdpcMinSum.TwoMinimaSuffice | src/qc_ldpc.rs:1718-1722 | picking the second minimum when an edge attains the first is the minimum over the other edges |
| LdpcMinSum.ExcludeSelf | src/qc_ldpc.rs:1671-1734 | both passes together send each edge the offset minimum of the others under the product of their signs, with the stated fix-up for a single edge |
| LdpcMinSum.NewRBound | src/qc_ldpc.rs:1715-1734 | no step of the message update leaves the 8-bit range |
| LdpcMinSum.NewRFlips | src/qc_ldpc.rs:1671-1734 | flipping a check's inputs along an even pattern flips its outputs along it, zeros included |
| LdpcMinSum.NewRAgrees | src/qc_ldpc.rs:1671-1734 | inputs that point at a satisfied check's bits give outputs that do too, or zero |
| LdpcLayers.UpdateIsClamp | src/qc_ldpc.rs:1740-1742 | the 16-bit saturation never shows through the clamp |
| LdpcLayers.PosteriorsAreSums | src/qc_ldpc.rs:1606-1746 | with channel values within 127 and room in the clamp, at every edge of every layer of every iteration each posterior is its channel value plus its incident messages |
| LdpcLayers.FillerIsNeverOverturned | src/qc_ldpc.rs:1437-1445 | a posterior pinned at the clamp stays at least clamp - 254 d at every moment, whatever the other inputs and even when sums saturate |
| LdpcSymmetry.CodewordSymmetry | src/qc_ldpc.rs:1606-1746 | flipping input signs along a codeword flips every message and posterior along it at every moment |
| LdpcSymmetry.CleanCodewordStays | src/qc_ldpc.rs:1606-1758 | inputs that spell a codeword without a zero still spell it after an iteration |
| LdpcDecoder.BuildMessages | src/qc_ldpc.rs:1619-1642 | the scratch holds the clamped variable-to-check messages of the layer |
| LdpcDecoder.PassOne | src/qc_ldpc.rs:1675-1705 | per lane: the two smallest magnitudes and the sign product, with the fix-up below two edges |
| LdpcDecoder.PassTwo | src/qc_ldpc.rs:1707-1744 | in place: all messages of the layer replaced, posteriors moved by the differences |
| LdpcDecoder.CheckSyndrome | src/qc_ldpc.rs:1766-1787 | true if and only if the hard decisions satisfy every expanded parity check |
| LdpcDecoder.CodewordIffChecksEven | src/qc_ldpc.rs:1766-1787 | a codeword is a word in which every check looks at an even number of ones, edge by edge at lane plus shift modulo z |
| LdpcDecoder.DecodeLayered | src/qc_ldpc.rs:1530-1758 | the posteriors, messages and hard decisions after exactly the iterations used; stopping early means a codeword, going on means there was none; the length errors in the code's order, with nothing written |
| LdpcDecoder.CleanCodewordStops | src/qc_ldpc.rs:1748-1757 | input that spells a codeword without a zero stops after one iteration with that codeword |
| LdpcDecoder.FillerDecodesToZero | src/qc_ldpc.rs:1437-1445 | a pinned position decodes to zero when the clamp is at least 254 times its degree |
| LdpcNarrow.NarrowClampLosesTheFiller | src/qc_ldpc.rs:1437-1445 | a graph and channel values on which a filler of degree one is lost after two iterations, for clamps from 127 on, if and only if the clamp is below 254 |
| LdpcDecoder.Decode5g | src/qc_ldpc.rs:1486-1523 | the decoder's outcome, posteriors, messages and hard decisions on the prepared buffer, whose cells are given by position in `LdpcWrapper.PreparedByPosition`; on a length error found after that the posteriors are left so prepared |
| LdpcDecoder.WrapperKeepsFillers | src/qc_ldpc.rs:1486-1523 | through the wrapper, with that clamp, every filler bit outside the punctured blocks decodes to zero |
| LdpcWrapper.PreparedByPosition | src/qc_ldpc.rs:1505-1513 | positions below 2z are zero, positions from kb z - nFiller to kb z beyond them hold the clamp, every other position keeps its channel value |
| LdpcWrapper.DecodedOnce | src/qc_ldpc.rs:1530-1758 | iterations, posteriors and hard decisions are fixed by the input |
| LdpcWrapper.WrapperIgnores | src/qc_ldpc.rs:1494-1523 | values received for punctured and filler positions change nothing |
| LdpcWrapper.NewRLeans | src/qc_ldpc.rs:1671-1734 | a check update whose inputs nowhere point away from a satisfied check's bits, zeros included, has no output that does |
| LdpcWrapper.NeverMisled | src/qc_ldpc.rs:1606-1758 | over inputs that are erased, weakened or pinned but nowhere point away from a codeword, no message and no posterior ever does, after any number of iterations |
| LdpcWrapper.PreparedLeans | src/qc_ldpc.rs:1505-1513 | no prepared cell contradicts a codeword whose last nFiller message bits are zero |
| LdpcWrapper.WrapperIsNeverMisled | src/qc_ldpc.rs:1494-1523 | through the wrapper such a codeword's zeros are never decided as ones, and every position with a non-zero posterior is decided as sent |
| LdpcDecoder.EncodeThenDecode | src/qc_ldpc.rs:1530-1758 | what the sparse encoder produces, sent with its signs intact, decodes to itself in one iteration |
| LdpcDense.Eliminate | src/qc_ldpc.rs:2050-2067 | elimination keeps the solutions and reaches unit columns, or shows a non-zero parity pattern that solves everything with a zero message |
| LdpcDense.ReducedSolves | src/qc_ldpc.rs:2069-2084 | after elimination the equations hold exactly when the parity is the generator applied to the message |
| LdpcDense.Build | src/qc_ldpc.rs:2017-2091 | with a generator the checks hold exactly for the parity it computes; failure means the parity block is singular |
| LdpcDense.ApplyGenerator | src/qc_ldpc.rs:2104-2124 | parity bit i is the product of row i with the message, for messages that fit its buffer of 140 words |
| LdpcDense.SparseAgreesWithDense | src/qc_ldpc.rs:2735-2758 | where both encoders apply they give the same parity |
| LdpcDense.FromParams | src/qc_ldpc.rs:2470-2483 | the closed form whenever the pattern is there, otherwise the generator, otherwise an error |
| LdpcDense.Encode | src/qc_ldpc.rs:2592-2613 | message first; every check holds on the dense path, and on the sparse one under its two hypotheses; length errors write nothing; the dense path panics exactly when the message has more than 8960 bits |
| Pipeline.StepKeeps | src/ldpc_pipeline.rs:428-588 | every step of caller or worker keeps the books: slots in one place, counters exact, an exited worker holds nothing |
| Pipeline.RunKeeps | src/ldpc_pipeline.rs:428-588 | and so does every interleaving |
| Pipeline.ExactlyOnePlace | src/ldpc_pipeline.rs:499-576 | in every reachable state each of the sixteen slots is free, the caller's, or on one worker's side, exactly once |
| Pipeline.NoTwoOwners | src/ldpc_pipeline.rs:428-463 | two workers never decode the same slot |
| Pipeline.SubmitNeverFails | src/ldpc_pipeline.rs:536-547 | the chosen work ring always has room |
| Pipeline.DoneRingHasRoom | src/ldpc_pipeline.rs:454-457 | a done ring is never full when its worker pushes, so the spin never waits for the caller |
| Pipeline.CountersNeverUnderflow | src/ldpc_pipeline.rs:551-567 | a received frame was counted, so the saturating subtraction never saturates |
| Pipeline.LineKeepsOrder | src/ldpc_pipeline.rs:428-567 | over every run, what is received from a worker followed by what stands in its rings and hands is what stood there before followed by what is submitted to it |
| Pipeline.FirstInFirstOut | src/ldpc_pipeline.rs:428-567 | from the start on each worker's frames come back in the order of their submission, and none is lost |
| Pipeline.StepsRunOut | src/ldpc_pipeline.rs:428-463 | once the stop flag is set every step lowers a bound |
| Pipeline.SomeStepPossible | src/ldpc_pipeline.rs:579-588 | while a worker has not left some step is possible: joining cannot deadlock |
| Pipeline.DropTerminates | src/ldpc_pipeline.rs:579-588 | every run after the drop is at most as long as that bound |
| Pipeline.DropAbandons | src/ldpc_pipeline.rs:428-463 | what each worker leaves in its ring when it exits is fixed by where it stood when the flag was set |
| Pipeline.DropDrainsIff | src/ldpc_pipeline.rs:579-588 | everything queued is decoded if and only if no worker with a non-empty ring stood between a failed pop and its look at the flag |
| Pipeline.LateSubmitIsAbandoned | src/ldpc_pipeline.rs:429-460 | a five-step interleaving that abandons a frame |
| Pipeline.PickWorker | src/ldpc_pipeline.rs:267-283 | a least loaded worker, and the first of those counting from the cursor |
| Pipeline.EqualLoadsRotate | src/ldpc_pipeline.rs:267-283 | with equal loads the cursor decides: round robin |
| Pipeline.LdpcPipeline.constructor | src/ldpc_pipeline.rs:374-486 | the worker count is clamped to 1 to 8 and the protocol starts with every slot free |
| Pipeline.LdpcPipeline.Acquire | src/ldpc_pipeline.rs:499-509 | the last freed slot, which nobody else holds, or nothing when none is free |
| Pipeline.LdpcPipeline.Submit | src/ldpc_pipeline.rs:536-547 | always succeeds; the slot goes to the picked worker and the cursor advances |
| Pipeline.LdpcPipeline.WorkerActs | src/ldpc_pipeline.rs:428-463 | one step of a worker's loop is the protocol's step, taken exactly when it is that worker's turn; it submits and receives nothing |
| Pipeline.LdpcPipeline.PollRing | src/ldpc_pipeline.rs:551-567 | one done ring: its oldest frame, with the exact counter, or nothing when it is empty |
| Pipeline.LdpcPipeline.TryRecv | src/ldpc_pipeline.rs:551-567 | the rings are polled one by one while the workers go on in between: the oldest frame of the first ring that has one when its turn comes, or nothing when each was empty at its own turn; it is the earliest submitted frame of its worker not yet received, so with one worker frames come back in submission order |
| Pipeline.EmptyPollsAreNotSimultaneous | src/ldpc_pipeline.rs:551-567 | an interleaving in which a poll finds nothing although a frame waits in a ring already passed |
| Pipeline.ActedIsRun | src/ldpc_pipeline.rs:428-463 | any schedule of worker steps between polls is a run of the protocol |
| Pipeline.LdpcPipeline.Release | src/ldpc_pipeline.rs:572-576 | the slot returns to the free list |
| SelectionWalk.Walk | src/rate_matching.rs:418-458 | the guarded loop returns the first picks of the unguarded walk, all E of them or as many as two turns and one more allow, then zeros |
| SelectionWalk.TwoTurns | src/rate_matching.rs:418-458 | two turns pick twice the usable positions, wherever the walk starts |
| SelectionWalk.NeverFiller | src/rate_matching.rs:418-458 | no filler position is ever picked |
| SelectionWalk.VisitsEven | src/rate_matching.rs:418-458 | any two usable positions are visited equally often up to one, after any number of steps |
| RateMatching.Interleave | src/rate_matching.rs:109-120 | the buffer becomes its interleaving |
| RateMatching.Deinterleave | src/rate_matching.rs:123-134 | the buffer becomes the interleaving with rows and columns exchanged |
| RateMatching.InterleaveInverts | src/rate_matching.rs:109-134 | the two undo each other for every length and modulation order |
| RateMatching.RateMatch | src/rate_matching.rs:181-260 | the interleaved selected bits, slots past the guard keeping the buffer's old contents; bad parameters change nothing |
| RateMatching.RateDematch | src/rate_matching.rs:307-369 | every buffer position gains the sum of the deinterleaved values whose walk stands there |
| RateMatchPositions.SentBit | src/rate_matching.rs:212-260 | within the guard every output bit is a codeword bit past the punctured 2z and outside the filler bits, at the interleaved place of its slot |
| RateMatchPositions.FirstSent | src/rate_matching.rs:67-95 | a redundancy version starts at block 2, 19, 35 or 58 of the codeword (2, 15, 27 or 45 for BG2), or behind the filler bits if that block's first bit is one |
| RateMatchPositions.SlotsDiffer | src/rate_matching.rs:212-260 | while E is at most the usable count no codeword bit is sent twice |
| RateMatchPositions.EverythingIsSent | src/rate_matching.rs:212-260 | once E is at least that count every codeword bit that may be sent has been |
| RateMatchPositions.MatchThenDematch | src/rate_matching.rs:181-369 | within the guard the position of codeword bit i receives that bit's soft value once for every time it was sent, positions of other bits nothing |
| RateMatchPositions.EachValueReturns | src/rate_matching.rs:307-369 | while nothing is sent twice every received value goes to the position of the codeword bit it was sent for, and is all that position receives |
| RateMatchPositions.DeinterleavingIsStandard | src/rate_matching.rs:123-134 | the deinterleaver's order is that of section 5.4.2.2 of TS 38.212 |
| RateMatchPositions.InterleavingIsStandardIff | src/rate_matching.rs:99-120 | the interleaver's order is the standard's for all inputs if and only if Qm or E/Qm is at most 1 or they are equal |
| RateMatchCache.RateMatchCache.Ensure | src/rate_matching.rs:531-551 | after any sequence of keys the tables are those of the requested key |
| RateMatchCache.RateMatchCache.RateMatchInto | src/rate_matching.rs:593-635 | the gather through the tables of the key, whatever was cached before |
| RateMatchCache.RateMatchCache.RateDematchInto | src/rate_matching.rs:675-715 | the scatter-add through those tables |
| RateMatchCache.CacheAgreesIff | src/rate_matching.rs:593-635 | cached and direct output are equal if and only if E is at most 2(Ncb-F)+1 or the cut-off slots happen to hold the first buffer bit |
| RateMatchCache.MatchAgreesIff | src/rate_matching.rs:593-635 | for all codewords and output buffers the two are equal if and only if E is at most 2(Ncb-F)+1 |
| RateMatchCache.CachedDematchAgrees | src/rate_matching.rs:675-715 | cached and direct accumulation agree at every position but the first, and there too within the guard's bound |
| RateMatchCache.CachedDifference | src/rate_matching.rs:675-715 | at every position but the first the two agree; position 0 also receives the sum of the cut-off deinterleaved values |
| RateMatchCache.CachedDematchAgreesIff | src/rate_matching.rs:675-715 | cached and direct accumulation agree for all received values if and only if E is at most 2(Ncb-F)+1 |
| RateMatchCache.CacheDiffersPastTheGuard | src/rate_matching.rs:453-455 | at 102 bits of BG2 with z = 1 both cached directions differ from the direct ones |
| RateMatchCache.HarqBuffer.constructor | src/harq.rs:77-98 | an empty accumulator |
| RateMatchCache.HarqBuffer.Combine | src/harq.rs:142-158 | the accumulator is the per-position sum of all transmissions since the last flush, this one included; a refused one changes nothing |
| RateMatchCache.HarqBuffer.Flush | src/harq.rs:189-192 | forgets them all |
| RateMatchCache.HarqBuffer.CopyLlrInto | src/harq.rs:174-183 | a prefix copy, or an error with both lengths that writes nothing |
| RateMatchCache.BufferIsDirectSum | src/harq.rs:142-158 | while no guard cuts a walk short the accumulator is the sum of the direct walks |
| RateMatchCache.BufferDifference | src/harq.rs:142-158 | the accumulator is the sum of the direct walks, plus at position 0 all values that were cut off |
| RateMatchCache.BufferAgreesIff | src/harq.rs:142-158 | under given keys the accumulator is the sum of the direct walks for all received values if and only if no key takes its walk past the guard |
| RateMatchCache.FillerReceivesNothing | src/rate_matching.rs:307-369 | the walk never adds to a filler position |
| RateMatchCache.CachedFillerReceives | src/rate_matching.rs:675-715 | through the cache neither does anything else, except that position 0 receives the cut-off values even when it is filler |
| CcsdsCode.MultiplyFactor | src/ccsds_rs.rs:146-156 | one factor multiplied in |
| CcsdsCode.BuildRsGenerator | src/ccsds_rs.rs:141-159 | the product loop gives a monic polynomial of degree 32 vanishing at alpha^(11 * 112) to alpha^(11 * 143) |
| CcsdsGenerator.OneGenerator | src/ccsds_rs.rs:134-159 | only one polynomial meets that contract |
| CcsdsGenerator.GeneratorIsPalindrome | src/ccsds_rs.rs:134-159 | it reads the same backwards |
| CcsdsGenerator.SecondCoefficient | src/ccsds_rs.rs:134-159 | its coefficients of x^31 and of x are alpha^249 |
| CcsdsCode.FeedSymbol | src/ccsds_rs.rs:266-279 | one symbol through the in-place parity register, both branches of the feedback test |
| CcsdsCode.SystematicIsCodeword | src/ccsds_rs.rs:264-281 | data followed by the register's contents vanishes at all 32 roots |
| CcsdsCode.EncodeBlock | src/ccsds_rs.rs:264-281 | the block is a codeword that starts with its data |
| CcsdsLocator.Syndromes | src/ccsds_rs.rs:336-364 | Horner with the zero test gives the 32 values of the word; the flag is set exactly when all are zero |
| CcsdsLocator.FindRsLocator | src/ccsds_rs.rs:367-421 | the polynomial with constant term 1 that the recurrence of the algorithm arrives at, and its length L: it generates the syndromes from L on, and no recurrence with constant term 1 that does is shorter |
| CcsdsLocator.RsRunKeeps | src/ccsds_rs.rs:367-421 | after any number of syndromes the state is a shortest recurrence for those read |
| CcsdsErrors.ErrorIsWeighed | src/ccsds_rs.rs:336-364 | the syndromes of an error word are power sums of its locators under non-zero weights |
| CcsdsErrors.RootExpInverts | src/ccsds_rs.rs:449-467 | alpha to the root exponent of a position inverts that position's locator |
| CcsdsErrors.RootExpOfLoc | src/ccsds_rs.rs:449-467 | the position reported for root exponent i, through the step of 116, is the one whose root exponent is i |
| CcsdsSearch.DegreeOf | src/ccsds_rs.rs:423 | the highest non-zero coefficient |
| CcsdsSearch.ChienStep | src/ccsds_rs.rs:453-459 | stepping the registers gives the polynomial's value at the next power of alpha |
| CcsdsSearch.Search | src/ccsds_rs.rs:435-467 | the roots in rising order, all of them unless there are already as many as the degree, with their positions |
| Forney.ForneyFormula | src/ccsds_rs.rs:473-525 | the evaluator at an inverse locator is that error's weight times the derivative there |
| Forney.SimpleRoots | src/ccsds_rs.rs:505-517 | the derivative does not vanish at any inverse locator |
| Forney.DerivativeIsOdd | src/ccsds_rs.rs:505-514 | summing every second coefficient is taking the derivative |
| CcsdsDecoder.Omega | src/ccsds_rs.rs:476-494 | the first 32 coefficients of syndromes times locator, and the last non-zero one |
| CcsdsDecoder.Numerator | src/ccsds_rs.rs:497-503 | the evaluator's value |
| CcsdsDecoder.Denominator | src/ccsds_rs.rs:505-514 | the odd terms, for every degree up to 32 |
| CcsdsDecoder.Divided | src/ccsds_rs.rs:518-523 | the exponent arithmetic log a + log b + 255 - log d modulo 255 is multiplication and division in the field |
| CcsdsDecoder.CorrectAll | src/ccsds_rs.rs:496-525 | every located symbol corrected by evaluator times alpha^(111 i) over derivative, or failure exactly when some derivative vanishes |
| CcsdsTheory.DegreeIsCount | src/ccsds_rs.rs:423-471 | for at most 16 errors the locator's degree is their number |
| CcsdsTheory.MagnitudeIsError | src/ccsds_rs.rs:496-525 | the computed magnitude is the error value |
| CcsdsTheory.Restores | src/ccsds_rs.rs:496-525 | for at most 16 errors the corrected block is the codeword |
| CcsdsBeyond.SyndromeShifts | src/ccsds_rs.rs:518-523 | correcting moves syndrome i by the weighted power sum of the corrections |
| CcsdsBeyond.EvaluatorsAgree | src/ccsds_rs.rs:496-525 | on any accepted word the corrections' own evaluator and the computed one agree at every root |
| CcsdsBeyond.SplitDivides | src/ccsds_rs.rs:505-517 | when there are as many roots as the degree no derivative vanishes: the refusal there cannot happen |
| CcsdsBeyond.CodewordIffBalanced | src/ccsds_rs.rs:469-527 | a word with as many roots as the degree is corrected to a codeword if and only if the locator polynomial produces every syndrome from its degree on |
| CcsdsBeyond.BalancedIffFullLength | src/ccsds_rs.rs:423-471 | which it does if and only if its degree is the length L |
| CcsdsBeyond.BalancedIffLowDegree | src/ccsds_rs.rs:476-494 | and if and only if the evaluator's degree is below it |
| CcsdsBeyond.FewChanges | src/ccsds_rs.rs:496-526 | at most as many symbols change as the decoder reports |
| CcsdsCodec.AcceptedIffNear | src/ccsds_rs.rs:330-527 | an answer of at most 16 corrections is a codeword if and only if the received word was within 16 symbols of one |
| CcsdsCodec.DecodeBlock | src/ccsds_rs.rs:330-527 | answer and word left are functions of the received word alone, the search's early stop and the derivative test notwithstanding; every word with w at most 16 wrong symbols comes back as its codeword, with w returned |
| CcsdsCodec.NearIsRestored | src/ccsds_rs.rs:330-527 | for those functions: a word within w at most 16 symbols of a codeword gives w and that codeword |
| CcsdsCodec.AcceptedIffSplits | src/ccsds_rs.rs:461-471 | accepted are exactly the codewords and the words whose locator polynomial has as many distinct zeros as its degree, with that number as the answer |
| CcsdsCodec.AcceptedIffFullLength | src/ccsds_rs.rs:469-527 | any accepted word that is not a codeword becomes one if and only if the locator polynomial's degree is the length L, and if and only if the evaluator's degree is below it |
| CcsdsCodec.ChangesAtMost | src/ccsds_rs.rs:469-527 | an answer of w changes at most w symbols; a refused word and a codeword are left alone |
| CcsdsFalseAccept.SingleSyndromeIsAccepted | src/ccsds_rs.rs:469-471 | a word whose only non-zero syndrome is S_k with k at most 15 is answered with zero corrections and left as it is, no codeword; the degree is 0 and the length k+1 |
| CcsdsFalseAccept.WordWith | src/ccsds_rs.rs:336-364 | any 32 values are the syndromes of some word |
| CcsdsFalseAccept.FalseAcceptance | src/ccsds_rs.rs:469-527 | for each k at most 15 and each non-zero value there is such a word |
| CcsdsInterleave.New | src/ccsds_rs.rs:187-200 | accepts exactly the depths 1, 2, 3, 4, 5 and 8 |
| CcsdsInterleave.Encode | src/ccsds_rs.rs:227-255 | every stream is a codeword and the data come first in order; wrong lengths write nothing |
| CcsdsInterleave.Decode | src/ccsds_rs.rs:300-322 | a block with at most 16 wrong symbols in each stream is restored, and the total number of wrong symbols is returned; each stream done is what the block decoder makes of the received one, and the counts add up; on failure the streams before a refused one are done and the rest is as received |
| CcsdsInterleave.RefusedIsFar | src/ccsds_rs.rs:308-321 | no codeword is within 16 symbols of a refused stream |
| CcsdsInterleave.CountByStream | src/ccsds_rs.rs:308-321 | adding up the streams counts every wrong symbol once |
| CcsdsInterleave.BurstSpreads | src/ccsds_rs.rs:58-66 | a burst of m times the depth puts at most m wrong symbols in each stream |
| CcsdsInterleave.EncodeThenDecode | src/ccsds_rs.rs:227-322 | an encoded block decodes to itself with zero corrections, at every depth |
| CcsdsInterleave.BurstIsCorrected | src/ccsds_rs.rs:58-66 | any burst of up to 16 times the depth consecutive symbols is corrected and counted |

## Left out

- Floating-point rounding, NaN and infinity, and the checks that refuse non-finite LLRs: LLRs are exact reals.
- The f32 LDPC decoder, its bit tricks on sign bits, and every SIMD kernel: the scalar paths are modelled.
- Weak-memory ordering and the ring implementation: src/spsc_queue.rs is not part of this model; ring
  operations are atomic.
- What a worker computes on a frame's contents: the protocol tracks ownership, the decoder is modelled apart.
- The reliability sequence, the polarization-weight fallback and the 3GPP base graphs: parameters.
- Hamming, Golay and the Bluetooth block codes: finite and settled by enumeration.
- The byte-oriented Reed-Solomon codec of `src/reed_solomon.rs`, Viterbi, turbo and the Wi-Fi layers; simulation and
  Monte Carlo code.
- Chase-II agreeing with the hard decoder, and error rates of adaptive list decoding: not theorems, since a
  test pattern can reach a lighter wrong codeword and a CRC can pass on a wrong word.
- The submit cursor's wrap-around at the machine word: the cursor is unbounded.
- BchDecoder.DecodeFull: promises nothing about the buffer on failure, because the code leaves partial flips there.
- PolarCodec.MaskHasK: needs an order without repetitions, which the standard's table is but which is not proved here.
- LdpcDecoder.DecodeLayered: buffers are measured in whole rows of z cells, and edge rows past the graph's edges are not
  described.
- LdpcEncoder.ShiftFor: which of several entries at the offset is returned is in `LdpcEncoder.ShiftForFirst`.
- LdpcEncoder.CodewordIffNoResidual: its condition is on the solved blocks; `LdpcPairing` lifts it to the graph.
- RateMatchCache.CachedDematchAgrees: one direction at position 0; both are in `RateMatchCache.CachedDematchAgreesIff`.
- RateMatchCache.BufferIsDirectSum: one direction; both are in `RateMatchCache.BufferAgreesIff`.
- How many words with more than 16 wrong symbols in a CCSDS stream are accepted: each one's answer is fixed by its
  syndromes, and what it is worth is proved, but the words are not counted.
