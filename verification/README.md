# Verified model of the Quilibrium lattice cryptography and BlossomSub router

Two parts of the Quilibrium monorepo are modelled and proved here.

**Lattice cryptography** (`crates/bls48581/src/dilithium.rs` and `kyber.rs`, round-3 CRYSTALS-Dilithium and Kyber). The
model follows the code down to its arrays: Montgomery and Barrett reduction, lazily reduced number-theoretic transforms
with their i32 and i16 headroom, dense bit packing through a moving cursor, the hint buffer shared by all rows, rejection
sampling, and the key, signature and ciphertext functions on bytes. On top of it stand the two correctness theorems:
every signature that `signature` emits is accepted by `verify` wherever the i32 arithmetic of `verify` stays in range, with
the exact condition for that in builds with and without overflow checks, and `cpa_decrypt` recovers a message exactly when every
noise coefficient stays in its window, in which case both sides of the key encapsulation end with the same secret. Beside them
stand the exact set of byte strings that `verify` accepts, the exact bounds by which `signature` rejects a mask, and what
`cca_decrypt` returns for a ciphertext that does not re-encrypt. The
hash functions are arbitrary functions of the absorbed bytes; the matrix A is whatever they expand to.

**BlossomSub router state** (`crates/blossomsub/src`). Composite subscriptions with their reverse index and derived slice
meshes are a class with all operations that change them. Over any run the reverse index is exact, and every owned slice mesh
equals its owners' members unless an operation has disturbed it since the last heartbeat. Three kinds of operation can: a
subscription message of a peer, a disconnect, and unsubscribing from a slice that a composite also owns; for each it is said
exactly when. The heartbeat restores all slice meshes from any contents. Around it are the peer-selection rules of the
heartbeat, the backoff ring, the send queue, the message cache, the duplicate cache and the length-prefixed framing. The
clock is a parameter of each call, random choices are arbitrary, and a peer's score is a fixed number during a heartbeat.

## Layout

| files | content |
|---|---|
| Congruence, QuotientRing, TransformTree, TransformLoops | congruences, the rings Z[x]/(x^n - z), the tree of moduli that a transform walks, and the loop invariants shared by all four transforms |
| BitStream, PolyVector, RejectionSampling, Wrappers | bit cursors, vectors of polynomials, rejection loops, optional values |
| Dilithium* | tables, Montgomery arithmetic, transforms, polynomials, rounding, hints, packing, sampling, specification, verdict, scheme, rejection, correctness |
| Kyber* | tables, arithmetic, transforms, polynomials, codecs, sampling, specification, correctness, scheme |
| Network, Bitmask, CompositeMesh, MeshPolicy, SimpleMesh, CompositeRouter | topics as bitmasks, composite state, peer selection, heartbeat, router |
| Backoff, SendQueue, MessageCache, TimeCache, Framing | the bounded structures around the router |

A call on which the source panics is `None` or a false flag here, and the contract says when that happens. The causes are a
sampler that runs out of bytes and, in `verify`, arithmetic that leaves its type: `verify` subtracts a product below 1.633q
from a value below q and gives the difference, which may be negative, to `intt`, whose documented domain is [0, 2q). `Headroom`
is the exact condition on such a row for a build with overflow checks, `NoWrap` for one without.

## Where code and documentation disagree

The model follows the code.

- `kyber.rs:32` calls `ONE` "r mod q"; its value is R^2 mod q, and that is what `poly_tomont` needs.
- `kyber.rs:33` calls `QINV` "-1/q mod 2^16"; it is 1/q modulo 2^16, and `montgomery_reduce` subtracts accordingly.
- `kyber.rs:462-501` squeezes 64 eta2 bytes for e1 and e2 but cuts them with eta1. For the 512 level, where eta1 is 3 and
  eta2 is 2, the last 64 of the 192 bytes read are left over from an earlier squeeze.
- `backoff.rs:118-124` says `is_backoff_with_slack` returns false while the backoff is not over; it returns true then.
- `behaviour.rs:3372` says the composite fill prefers full coverers over brokers; the loop takes eligible peers in map
  order until it has enough.

## Model

| member | source | states |
|---|---|---|
| DilithiumTables.SplitsOk | crates/bls48581/src/dilithium.rs:72-98 | at every inner node k of the transform tree, ROOTS[2k]^2 = ROOTS[k] R and ROOTS[2k+1]^2 = -ROOTS[k] R modulo q |
| DilithiumTables.InversesOk | crates/bls48581/src/dilithium.rs:72-126 | ROOTS[k] IROOTS[k] = R^2 modulo q for every k |
| DilithiumTables.TablesOk | crates/bls48581/src/dilithium.rs:72-126 | the two tables, out of Montgomery form, are the roots and the inverse roots of the tree of moduli x^(256/m) - z that starts at x^256 + 1 |
| DilithiumMontgomery.RedcSpec | crates/bls48581/src/dilithium.rs:128-131 | redc(t) is t / 2^32 modulo q and below q + t / 2^32, with no overflow of the u64 sum up to the stated limit |
| DilithiumMontgomery.ModmulSpec | crates/bls48581/src/dilithium.rs:137-139 | modmul(a, b) is a b / 2^32 modulo q and below 2q whenever a < 512q and b < q |
| DilithiumMontgomery.ModmulLazy | crates/bls48581/src/dilithium.rs:137-139 | two unreduced transform values (below 18q) may be multiplied directly; the result is below 1.633q |
| DilithiumMontgomery.RedcValueSpec | crates/bls48581/src/dilithium.rs:128-131 | redc on any argument, negative ones cast to u64 and wrapped included, is the quotient by 2^32 modulo q, between t and t + 2^32 q over 2^32 |
| DilithiumMontgomery.NresSpec | crates/bls48581/src/dilithium.rs:133-135 | nres(x) is 2^32 x modulo q, for x below 512q |
| DilithiumNtt.PolyPos | crates/bls48581/src/dilithium.rs:141-145 | negative coefficients are raised by q; the rest stay |
| DilithiumNtt.Ntt | crates/bls48581/src/dilithium.rs:179-202 | on coefficients in [-q, 2q) every butterfly stays non-negative within i32, the result is below 18q, position i holds the value of the polynomial at the i-th root of x^256 + 1, and the unreduced integers are those of the recursive definition |
| DilithiumNtt.GrowthLimit | crates/bls48581/src/dilithium.rs:205-247 | of the 2n q that a block of width n may reach only element 0 gets that far, so the largest sum before the last reduction is below 256q and fits i32 |
| DilithiumNtt.Intt | crates/bls48581/src/dilithium.rs:205-247 | on values in [0, 2q) no intermediate value of the lazily reduced inverse transform leaves i32 or goes negative, and the result is exactly 2^32 times the inverse transform, fully reduced |
| DilithiumNtt.InttSigned | crates/bls48581/src/dilithium.rs:205-247 | on values in (-q, 2q) a build with overflow checks is right if and only if in each half the two sums of 64 differ by at most about 128q and the sums of 128 are not negative; one without them keeps going, and as long as no difference in the m = 2 layer reaches 2^31 the result is 2^32 times the inverse transform modulo q, at most 20 below zero |
| DilithiumNtt.ReducedHeadroom | crates/bls48581/src/dilithium.rs:205-247 | on the documented domain [0, 2q) both conditions always hold |
| DilithiumNtt.WideRunsOut | crates/bls48581/src/dilithium.rs:205-247 | in the range of the values that verify passes they do not: an input on which the m = 2 layer leaves i32 |
| DilithiumNtt.NegativeSums | crates/bls48581/src/dilithium.rs:205-247 | and an input in that range on which only a build with overflow checks fails |
| DilithiumNtt.TransformOfInverse | crates/bls48581/src/dilithium.rs:210-247 | the inverse transform is a right inverse: evaluating the rebuilt polynomial at the roots gives the values back |
| DilithiumNtt.InverseOfTransform | crates/bls48581/src/dilithium.rs:179-247 | and a left inverse: rebuilding from the values of c gives c modulo q |
| DilithiumPoly.ProductRepresents | crates/bls48581/src/dilithium.rs:291-295 | the pointwise Montgomery product of two transforms is the transform of the product in Z[x]/(x^256 + 1), divided by 2^32 |
| DilithiumPoly.SumRepresents | crates/bls48581/src/dilithium.rs:297-307 | sums of transforms are transforms of sums |
| DilithiumPoly.Multiply | crates/bls48581/src/dilithium.rs:128-302 | intt(poly_mul(ntt(a), ntt(b))) is the product of a and b in Z_q[x]/(x^256 + 1), fully reduced and out of Montgomery form, for all a, b in [-q, 2q) |
| DilithiumPoly.InttOfNtt | crates/bls48581/src/dilithium.rs:179-247 | intt(ntt(x)) = 2^32 x modulo q, coefficient by coefficient |
| DilithiumPoly.PolyMul | crates/bls48581/src/dilithium.rs:291-295 | pointwise Montgomery products, each below 2q, for operands below 18q |
| DilithiumPoly.PolyAdd | crates/bls48581/src/dilithium.rs:297-301 | pointwise sums, exact below the i32 limit |
| DilithiumPoly.PolySub | crates/bls48581/src/dilithium.rs:303-307 | pointwise differences raised by q: non-negative for subtrahends up to q, above -q for those below 2q |
| DilithiumPoly.PolyNegate | crates/bls48581/src/dilithium.rs:285-289 | q - p for every coefficient |
| DilithiumPoly.PolySoftReduce | crates/bls48581/src/dilithium.rs:310-315 | values below 2q become canonical residues |
| DilithiumPoly.PolyHardReduce | crates/bls48581/src/dilithium.rs:318-324 | values below 256q become canonical residues |
| DilithiumPoly.NresIt | crates/bls48581/src/dilithium.rs:249-253 | every coefficient is multiplied by 2^32 modulo q |
| DilithiumPoly.RedcIt | crates/bls48581/src/dilithium.rs:255-259 | every coefficient is divided by 2^32 modulo q |
| DilithiumPoly.InfinityNorm | crates/bls48581/src/dilithium.rs:873-885 | the largest magnitude of the centred coefficients: attained, and not exceeded |
| QuotientRing.MulModIsConvolution | crates/bls48581/src/dilithium.rs:291-295 | the ring product used throughout is the schoolbook convolution with wrap-around factor z |
| QuotientRing.ProductBound | crates/bls48581/src/dilithium.rs:1036-1053 | every coefficient of a b is at most the one-norm of a times the largest coefficient of b |
| BitStream.NextChunk | crates/bls48581/src/dilithium.rs:355-456 | one step of the moving cursor returns exactly the next bits of the number that the array spells, and moves by that many bits |
| BitStream.Recode | crates/bls48581/src/dilithium.rs:355-456 | repeated steps re-cut a sequence of inw-bit words into outw-bit words of the same number, and tell where the pointer ends |
| BitStream.RecodeRoundTrip | crates/bls48581/src/dilithium.rs:355-456 | nextword undoes nextbyte*, for every pair of widths and every array with no bits left over |
| DilithiumPacking.PackPk | crates/bls48581/src/dilithium.rs:458-470 | rho followed by the ten-bit words of t1 |
| DilithiumPacking.UnpackPk | crates/bls48581/src/dilithium.rs:472-482 | reads rho and t1 from any byte string of the right size |
| DilithiumPacking.PkLayout | crates/bls48581/src/dilithium.rs:472-482 | the first 32 bytes are rho, and coefficient k of t1 is the ten bits from bit 256 + 10 k on |
| DilithiumPacking.PkRoundTrip | crates/bls48581/src/dilithium.rs:458-482 | unpack_pk undoes pack_pk |
| DilithiumPacking.PackSk | crates/bls48581/src/dilithium.rs:484-517 | the five fields of a secret key and its three packed vectors, in order |
| DilithiumPacking.UnpackSk | crates/bls48581/src/dilithium.rs:519-551 | reads all fields from any byte string of the right size |
| DilithiumPacking.SkLayout | crates/bls48581/src/dilithium.rs:519-551 | rho, the secret and the key hash are the first three 32-byte parts, and every coefficient of s1, s2 and t0 is its maximum minus the bits at its place after them, in this order |
| DilithiumPacking.SkRoundTrip | crates/bls48581/src/dilithium.rs:484-551 | unpack_sk undoes pack_sk on in-range fields |
| DilithiumPacking.PackSig | crates/bls48581/src/dilithium.rs:554-587 | challenge seed, centred z, and hint bytes |
| DilithiumPacking.UnpackSig | crates/bls48581/src/dilithium.rs:589-616 | reads the three parts of any byte string of the right size |
| DilithiumPacking.SigLayout | crates/bls48581/src/dilithium.rs:589-616 | the first 32 bytes are the seed, coefficient k of z is gamma1 minus the lg + 1 bits from bit 256 + (lg+1) k on, modulo q, and the last omega + ck bytes are the hints |
| DilithiumPacking.SigRoundTrip | crates/bls48581/src/dilithium.rs:554-616 | unpack_sig undoes pack_sig on every z below gamma1 in size |
| DilithiumRounding.Power2RoundSpec | crates/bls48581/src/dilithium.rs:764-777 | t = t1 2^13 + t0 with t1 in [0, 1024) and t0 in (-4096, 4096] |
| DilithiumRounding.DecomposeHiRounds | crates/bls48581/src/dilithium.rs:800-812 | the shift-and-multiply high part is a divided by 2 gamma2 and rounded, for both divisors and every a in [0, q) |
| DilithiumRounding.DecomposeSpec | crates/bls48581/src/dilithium.rs:779-812 | a = hi 2 gamma2 + lo modulo q with hi in range and lo at most gamma2 in size |
| DilithiumRounding.HighStable | crates/bls48581/src/dilithium.rs:779-812 | adding less than the room that the low part leaves does not change the high part |
| DilithiumRounding.HintRecovers | crates/bls48581/src/dilithium.rs:826-871 | if adding a z below gamma2 in size changes the high part, stepping up or down by the sign of the low part gives the new one |
| DilithiumHints.MakePartialHint | crates/bls48581/src/dilithium.rs:826-843 | appends exactly the positions where adding z changes the high part, in order, or reports omega + 1 if they do not all fit |
| DilithiumHints.PointerInBuffer | crates/bls48581/src/dilithium.rs:845-871 | whatever bytes a signature carries, the reader never indexes outside the buffer |
| DilithiumHints.UsePartialHint | crates/bls48581/src/dilithium.rs:845-871 | the high parts of one row, adjusted at the hinted positions, and the pointer reached, for residues down to 20 below zero |
| DilithiumHints.HintedResidues | crates/bls48581/src/dilithium.rs:779-871 | a row with residues slightly below zero reads like the canonical one |
| DilithiumHints.HintRoundTrip | crates/bls48581/src/dilithium.rs:826-871 | reading back a row written by makepartialhint consumes exactly its entries and gives the high part of r + z at every position whose z is below gamma2 in size |
| DilithiumSampling.SampleSn | crates/bls48581/src/dilithium.rs:618-642 | coefficient j is eta minus the j-th of the consecutive lg2eta1-bit words of the buffer that is at most 2 eta; fails exactly if fewer than 256 words are |
| DilithiumSampling.SmallExact | crates/bls48581/src/dilithium.rs:618-642 | the same of the specification function that keypair is proved against |
| RejectionSampling.FirstBelowExact | crates/bls48581/src/dilithium.rs:327-350 | the rejection loop by counting: element j is the one before which exactly j elements are below the bound, and there is no answer exactly if fewer than 256 are |
| DilithiumSampling.ExpandAij | crates/bls48581/src/dilithium.rs:327-350 | coefficient j is the j-th number below q among the low 23 bits of every three bytes read as a little-endian number; fails exactly if fewer than 256 of the 341 are below q |
| DilithiumSampling.CandidatesAreFields | crates/bls48581/src/dilithium.rs:339-342 | the masked three-byte sum is bits 24 i to 24 i + 22 of the buffer read as one number, for every i |
| DilithiumSpec.MatrixExact | crates/bls48581/src/dilithium.rs:327-350 | element (i, j) of A is that for the SHAKE-128 output of rho, j, i, in this order |
| DilithiumSampling.SampleYRow | crates/bls48581/src/dilithium.rs:644-670 | coefficient k is gamma1 minus the k-th (lg+1)-bit word, modulo q |
| DilithiumSpec.RoundMaskExact | crates/bls48581/src/dilithium.rs:644-670 | coefficient n of row j of the mask of round k is gamma1 minus word n of the SHAKE-256 output for the mask seed and the two bytes of k el + j, the seed being the hash of the secret key part and the message representative |
| DilithiumSampling.SampleInBall | crates/bls48581/src/dilithium.rs:730-762 | the challenge that the byte stream determines: an inside-out shuffle with one sign bit per step |
| DilithiumSampling.ShuffledNext | crates/bls48581/src/dilithium.rs:748-761 | one step: position i takes the coefficient at j, the next byte at most i, and position j takes 1 or -1 by the next sign bit; stuck exactly if no such byte is left |
| DilithiumSampling.NextAtMostIsFirst | crates/bls48581/src/dilithium.rs:749-754 | every byte passed over is above i, and there is no answer only if all the rest are |
| DilithiumSampling.SignBitIsField | crates/bls48581/src/dilithium.rs:739-760 | the sign bit of step b is bit b of the first eight bytes |
| DilithiumSampling.ChallengeWeight | crates/bls48581/src/dilithium.rs:730-762 | the challenge has exactly tau coefficients 1 or -1 and no others |
| DilithiumScheme.SampleSecret | crates/bls48581/src/dilithium.rs:917-924 | the secret polynomials drawn one by one, all within eta; fails exactly when one of them cannot be sampled |
| DilithiumScheme.KeyRowOf | crates/bls48581/src/dilithium.rs:922-938 | a row of A s1 + s2 computed through transforms is that ring element, reduced |
| DilithiumScheme.KeyPair | crates/bls48581/src/dilithium.rs:887-944 | the emitted bytes decode to rho, the secrets of the seed, t0 and the hash of the public key, with t1 and t0 the rounding of A s1 + s2 in every row; fails exactly when a sampler runs out of bytes |
| DilithiumScheme.SecretExact | crates/bls48581/src/dilithium.rs:618-642 | coefficient j of secret polynomial i is eta minus the j-th word at most 2 eta of the SHAKE-256 output for the seed and the two bytes of the polynomial number |
| DilithiumScheme.SampleY | crates/bls48581/src/dilithium.rs:644-670 | the mask vector of a round, drawn from the seed at row indices k, k+1, ... |
| DilithiumScheme.Commit | crates/bls48581/src/dilithium.rs:989-1009 | A y by transforms, reduced, and the high parts of all rows |
| DilithiumScheme.ResponseRow | crates/bls48581/src/dilithium.rs:1015-1027 | y + c s1, computed in the transform domain through nres_it, redc_it and intt, is that ring element, reduced |
| DilithiumScheme.Respond | crates/bls48581/src/dilithium.rs:1013-1035 | all rows of z within the norm bound, or a row that is not |
| DilithiumScheme.CheckRow | crates/bls48581/src/dilithium.rs:1041-1064 | accepts a row exactly if lobits(w - c s2) and c t0 are within their bounds, and leaves w - c s2 + c t0 |
| DilithiumScheme.HintRows | crates/bls48581/src/dilithium.rs:1037-1071 | every row checked and its hints in the shared buffer with its end recorded, or a proof that no buffer would do |
| DilithiumScheme.SignRound | crates/bls48581/src/dilithium.rs:986-1076 | a round panics exactly if a sampler runs out; otherwise it is accepted exactly if its mask can sign, and then emits the packed signature of that mask |
| DilithiumScheme.Signature | crates/bls48581/src/dilithium.rs:946-1079 | the signature of the first mask that can sign, no mask before it making a sampler panic, and the number of rounds it took |
| DilithiumRejection.RejectedExactly | crates/bls48581/src/dilithium.rs:1014-1071 | a mask that draws a challenge is rejected exactly if it breaks one of four bounds: z below gamma1 - beta, the low parts of w - c s2 below gamma2 - beta, c t0 below gamma2, at most omega coefficients whose high part changes over all rows |
| DilithiumRejection.FirstShortMask | crates/bls48581/src/dilithium.rs:986-1076 | the mask of the emitted signature meets the four bounds and every mask before it breaks one |
| DilithiumRejection.PositionsCount | crates/bls48581/src/dilithium.rs:826-843 | makepartialhint writes one position per coefficient whose high part changes |
| DilithiumScheme.VerifyRow | crates/bls48581/src/dilithium.rs:1125-1143 | a row of A z - c t1 2^13, computed in i32 through poly_sub and intt, is that ring element; the values given to intt lie in (-0.633q, 2q); it fails exactly if A cannot be sampled or the row lacks the headroom of the build, with or without overflow checks |
| DilithiumScheme.CheckRows | crates/bls48581/src/dilithium.rs:1123-1158 | the row loop of verify, hint pointer and all, accepts exactly if every row expands and has the headroom of the build, no hint pointer passes omega, and the hash of the hint-corrected high parts of A z - c t1 2^13 is the seed of the signature; none exactly if a row it comes to cannot be sampled or lacks the headroom |
| DilithiumScheme.Verify | crates/bls48581/src/dilithium.rs:1081-1159 | on arbitrary byte strings of the right size verify, in i32 throughout and with or without overflow checks, accepts exactly if every coefficient of z is below gamma1 - beta, A and the challenge can be sampled, the hint pointers p(0) = 0 and p(i+1) stay at most omega, and SHAKE-256 of the message representative and the packed hint-corrected rows is the seed of the signature, all rows it comes to having the headroom of the build; otherwise it rejects, or gives no verdict exactly if such a row lacks the headroom or a sampler runs out |
| DilithiumVerdict.VerdictExact | crates/bls48581/src/dilithium.rs:1081-1159 | the accepted signatures, and those without a verdict, said without the recursion over the rows; every other signature is rejected |
| DilithiumVerdict.WrongSeedRejected | crates/bls48581/src/dilithium.rs:1145-1158 | if the recomputed high parts hash to anything but the seed in the signature, it is rejected |
| DilithiumVerdict.RowsExact | crates/bls48581/src/dilithium.rs:1123-1158 | from any row on: no verdict exactly if a row that is come to cannot be sampled, accepted exactly if all rows expand, all later pointers stay within omega and the seed comes out |
| DilithiumCorrectness.RingIdentity | crates/bls48581/src/dilithium.rs:1136-1143 | the row that verify recomputes equals w - c s2 + c t0 |
| DilithiumCorrectness.SecretProductSmall | crates/bls48581/src/dilithium.rs:1036-1053 | every coefficient of c s2 is at most tau eta in size |
| DilithiumCorrectness.HighUnchanged | crates/bls48581/src/dilithium.rs:1049-1053 | the check on lobits(w - c s2) makes the high part of w - c s2 that of w |
| DilithiumCorrectness.RowRecovered | crates/bls48581/src/dilithium.rs:1065-1070 | from the hints of a signed row verify recovers exactly the high parts that were hashed |
| DilithiumCorrectness.SignaturesVerify | crates/bls48581/src/dilithium.rs:887-1159 | every signature for every message under every key pair of all three parameter sets has the verdict true, for arbitrary SHAKE outputs, and every row of it is given to intt, so that the arithmetic of verify stays in range in a build if and only if each of its rows has the headroom of that build |
| DilithiumCorrectness.SignAndVerify | crates/bls48581/src/dilithium.rs:1163-1199 | keypair, signature and verify in a row on bytes: verify accepts if every row has the headroom for intt in the build, with or without overflow checks, and otherwise gives no verdict |
| KyberTables.SplitsOk | crates/bls48581/src/kyber.rs:66-83 | the squaring relations between ZETAS[k] and its two children |
| KyberTables.MirrorsOk | crates/bls48581/src/kyber.rs:66-83 | running the table backwards gives the negated inverse roots that invntt needs |
| KyberTables.TablesOk | crates/bls48581/src/kyber.rs:66-83 | ZETAS are the roots of the seven-level tree that starts at x^256 + 1 |
| KyberArith.MontgomerySpec | crates/bls48581/src/kyber.rs:94-99 | montgomery_reduce(a) is a / 2^16 modulo q, and at most (m + 2^15 q) / 2^16 in size for every a of size at most m |
| KyberArith.BarrettSpec | crates/bls48581/src/kyber.rs:101-106 | for a of size at most 31625 the result is the centred residue of a |
| KyberArith.BarrettLimit | crates/bls48581/src/kyber.rs:101-106 | 31625 is the limit: one more and t q no longer fits i16 |
| KyberArith.FqmulSpec | crates/bls48581/src/kyber.rs:108-110 | the Montgomery product and its size in terms of the operands |
| KyberNtt.Ntt | crates/bls48581/src/kyber.rs:112-130 | on x of size at most q no i16 sum overflows, the result is within 8q, and each pair holds the residue modulo its x^2 - z |
| KyberNtt.InvNtt | crates/bls48581/src/kyber.rs:132-155 | on x of size at most 14144, the unreduced sum of four products, every sum fits barrett_reduce and i16, and the result is 2^16 times the inverse transform, within 1976 |
| KyberNtt.TransformOfInverse | crates/bls48581/src/kyber.rs:132-155 | the inverse transform is a right inverse |
| KyberNtt.InverseOfTransform | crates/bls48581/src/kyber.rs:112-155 | and a left inverse modulo q |
| KyberPoly.BaseMulSpec | crates/bls48581/src/kyber.rs:157-163 | basemul is the product modulo x^2 - zeta divided by 2^16, both coefficients within 3536 |
| KyberPoly.PolyMul | crates/bls48581/src/kyber.rs:181-187 | all 128 pairwise products, within 3536 |
| KyberPoly.ProductRepresents | crates/bls48581/src/kyber.rs:181-187 | poly_mul of two transforms is the transform of the ring product divided by 2^16 |
| KyberPoly.PolyReduce | crates/bls48581/src/kyber.rs:165-169 | centred residues |
| KyberPoly.PolyNtt | crates/bls48581/src/kyber.rs:171-174 | the transform, centred |
| KyberPoly.PolyToMont | crates/bls48581/src/kyber.rs:189-193 | multiplication by 2^16 modulo q |
| KyberPoly.ToMontRepresents | crates/bls48581/src/kyber.rs:189-193 | poly_tomont removes the 1 / 2^16 of a product |
| KyberPoly.PolyAdd | crates/bls48581/src/kyber.rs:197-201 | pointwise sums without overflow |
| KyberPoly.PolyAcc | crates/bls48581/src/kyber.rs:203-207 | pointwise accumulation without overflow |
| KyberPoly.PolyDec | crates/bls48581/src/kyber.rs:209-213 | pointwise difference without overflow |
| KyberPoly.Multiply | crates/bls48581/src/kyber.rs:112-187 | invntt(poly_mul(poly_ntt(a), poly_ntt(b))) is the product in Z_q[x]/(x^256 + 1) |
| KyberCodec.CompressSpec | crates/bls48581/src/kyber.rs:326-333 | compression yields the y in [0, 2^d) with 2^d x within q/2 of q y, up to multiples of 2^d q |
| KyberCodec.CompressCong | crates/bls48581/src/kyber.rs:326-333 | compress depends on its argument only modulo q |
| KyberCodec.CompressOfDecompress | crates/bls48581/src/kyber.rs:326-340 | compress(decompress(y)) = y for every width used |
| KyberCodec.CompressionError | crates/bls48581/src/kyber.rs:326-340 | decompress(compress(x)) is within round(q / 2^(d+1)) of x modulo q |
| KyberCodec.BitSurvives | crates/bls48581/src/kyber.rs:326-340 | a spread message bit plus noise compresses back to the bit exactly when the centred noise is in [-832, 832] for 0 or [-832, 831] for 1 |
| KyberCodec.CompressInPlace | crates/bls48581/src/kyber.rs:326-333 | every element compressed, products within i32 |
| KyberCodec.DecompressInPlace | crates/bls48581/src/kyber.rs:334-340 | every element decompressed |
| KyberCodec.Encode | crates/bls48581/src/kyber.rs:279-304 | the byte string that the normalised coefficients spell |
| KyberCodec.Decode | crates/bls48581/src/kyber.rs:260-324 | the words that the leading bytes spell |
| KyberCodec.DecodedExact | crates/bls48581/src/kyber.rs:260-324 | element k is the l bits of the byte string from bit l k on |
| KyberCodec.DecodeOfEncode | crates/bls48581/src/kyber.rs:260-324 | decode(encode(t)) is t with every coefficient normalised, whatever follows |
| KyberCodec.DecodedResidues | crates/bls48581/src/kyber.rs:260-324 | for t below q in size the decoded twelve-bit words are the residues modulo q |
| KyberCodec.EncodeOfDecode | crates/bls48581/src/kyber.rs:260-324 | encode(decode(b)) = b |
| KyberCodec.ChkEncode | crates/bls48581/src/kyber.rs:307-316 | zero exactly if the bytes start with the encoding |
| KyberSampling.GetBitIsField | crates/bls48581/src/kyber.rs:241-245 | getbit(b, n) is bit n of the number the bytes spell |
| KyberSampling.Cbd | crates/bls48581/src/kyber.rs:247-257 | coefficient i is the number of ones among bits 2 eta i to 2 eta i + eta - 1 of the buffer minus the number among the next eta bits |
| KyberSpec.KeyNoiseExact | crates/bls48581/src/kyber.rs:371-391 | row i of s or e is that for the SHAKE-256 output of sigma and the number of the row, e following s |
| KyberSpec.NoiseExact | crates/bls48581/src/kyber.rs:446-501 | noise polynomial k of an encryption, bit by bit, including the bytes left over from the last fill of q where 64 eta2 bytes are cut with eta1 |
| KyberSampling.ExpandAij | crates/bls48581/src/kyber.rs:216-239 | coefficient j is the j-th number below q among the 512 consecutive 12-bit words of the buffer; fails exactly if fewer than 256 are below q, where the source runs off its buffer |
| KyberSampling.CandidatesAreFields | crates/bls48581/src/kyber.rs:229-230 | the two candidates from every three bytes are the consecutive 12-bit words of the buffer read as one number |
| KyberSpec.MatrixExact | crates/bls48581/src/kyber.rs:216-239 | element (i, j) of A is that for the SHAKE-128 output of rho, j, i, in this order |
| KyberScheme.RowProduct | crates/bls48581/src/kyber.rs:399-407 | an unreduced row of A v or A^T v represents that ring element over 2^16, within 3536 per term; fails exactly when an element cannot be sampled |
| KyberScheme.HatProduct | crates/bls48581/src/kyber.rs:486-493 | an unreduced product of a decoded vector of transforms with a vector |
| KyberScheme.KeyRow | crates/bls48581/src/kyber.rs:399-411 | a row of A s + e in the transform domain, centred |
| KyberScheme.CpaKeypair | crates/bls48581/src/kyber.rs:343-419 | the key bytes carry s and A s + e of the seed as canonical transforms; fails exactly when the matrix cannot be expanded |
| KyberScheme.NoiseRows | crates/bls48581/src/kyber.rs:447-465 | noise polynomials cut from a buffer that keeps the tail of earlier fills |
| KyberScheme.EncryptRow | crates/bls48581/src/kyber.rs:471-484 | a row of A^T q + e1, reduced and compressed |
| KyberScheme.EncryptV | crates/bls48581/src/kyber.rs:486-510 | t q + e2 + message, reduced and compressed; the unreduced sum of up to four products goes straight into invntt |
| KyberScheme.CpaBaseEncrypt | crates/bls48581/src/kyber.rs:421-511 | u and v are the compressed ring elements of the specification |
| KyberScheme.CpaEncrypt | crates/bls48581/src/kyber.rs:513-523 | the ciphertext bytes of the specification |
| KyberScheme.CpaCheckEncrypt | crates/bls48581/src/kyber.rs:526-541 | 0 exactly if re-encryption gives the ciphertext, else 0xff |
| KyberScheme.CpaDecrypt | crates/bls48581/src/kyber.rs:543-573 | the message whose bits are the rounding of v - s u |
| KyberScheme.CcaKeypair | crates/bls48581/src/kyber.rs:575-592 | secret key = CPA key, public key, its hash, and the second half of the random bytes as rejection secret |
| KyberScheme.CcaEncrypt | crates/bls48581/src/kyber.rs:594-632 | with m the hash of the random bytes and g the SHA3-512 hash of m and the hash of the public key: the encryption of m with coins g[32..], and SHAKE-256 of g[..32] and the hash of the ciphertext |
| KyberScheme.Choose | crates/bls48581/src/kyber.rs:653-657 | the masked XOR picks the pre-key for mask 0 and the rejection secret for mask 0xff |
| KyberScheme.CcaDecrypt | crates/bls48581/src/kyber.rs:634-667 | on ciphertexts of at least the right size, with m the decryption and g the SHA3-512 hash of m and the stored hash: SHAKE-256 of g[..32] and the hash of the ciphertext if encrypting m with coins g[32..] gives the ciphertext back, of the rejection secret z and that hash if it does not |
| KyberCorrectness.Exchange | crates/bls48581/src/kyber.rs:399-493 | (A s) q = s (A^T q): the double sum may be taken by rows or by columns |
| KyberCorrectness.RoundingErrorSmall | crates/bls48581/src/kyber.rs:326-340 | modulo q each rounding error of u and v is at most round(q / 2^(d+1)) |
| KyberCorrectness.RemainderIsNoisy | crates/bls48581/src/kyber.rs:543-573 | v - s u is, modulo q, the spread message plus e q + e2 + cv - s (e1 + cu) |
| KyberCorrectness.DecryptionExact | crates/bls48581/src/kyber.rs:421-573 | cpa_decrypt returns the encrypted message if and only if every noise coefficient stays in the window of its bit |
| KyberCorrectness.SmallNoiseSurvives | crates/bls48581/src/kyber.rs:543-573 | noise of at most 831 in size is always in the window |
| KyberCorrectness.Agreement | crates/bls48581/src/kyber.rs:575-667 | if the message survives the noise, cca_decrypt on the untouched ciphertext of exact size returns the shared secret of cca_encrypt |
| KyberScheme.KeyExchange | crates/bls48581/src/kyber.rs:671-705 | keypair, encrypt and decrypt in a row on bytes: decryption always ends, with the same secret if the message survives the noise |
| Bitmask.SliceBitmask | crates/blossomsub/src/composite.rs:40-66 | the nested loops produce the slices of the specification, in order |
| Bitmask.SlicesExact | crates/blossomsub/src/composite.rs:40-66 | the slices of a non-zero mask are exactly the masks of one set bit |
| Bitmask.SlicesDistinct | crates/blossomsub/src/composite.rs:40-66 | no slice occurs twice and there is always one |
| Bitmask.UnionOfSlices | crates/blossomsub/src/composite.rs:40-66 | the union of the slices is the mask, for every mask |
| Bitmask.CoversIffAllSlices | crates/blossomsub/src/composite.rs:75-99 | a mask is covered exactly if all its slices are, for all byte strings including empty, zero and of unequal lengths |
| Bitmask.CoveredSlices | crates/blossomsub/src/composite.rs:75-81 | a mask that covers a non-zero one has all its slices |
| CompositeMesh.OwnersMember | crates/blossomsub/src/behaviour.rs:1738-1749 | the members for a slice are the same and broker peers of all composites that own it |
| CompositeMesh.RebuildRepairs | crates/blossomsub/src/behaviour.rs:1762-1776 | rebuilding a composite puts all its slice meshes in order from any contents and disturbs no other |
| CompositeMesh.ChangeDisturbs | crates/blossomsub/src/behaviour.rs:2088-2101 | changing the members of a composite disturbs at most its own slices |
| CompositeMesh.SubscriptionsDisturb | crates/blossomsub/src/behaviour.rs:2798-2902 | exactly when a subscription message disturbs a slice that is in order: an unsubscription if the peer is a member of an owner, a subscription alone if the peer is taken in anew and the slice is not also a simple subscription |
| CompositeMesh.DisconnectDisturbs | crates/blossomsub/src/behaviour.rs:4132-4203 | exactly when a disconnect disturbs a slice that is in order: if the peer is in its mesh by a composite only and did not advertise the slice itself |
| CompositeMesh.UnsubscribeLosesMember | crates/blossomsub/src/behaviour.rs:2316-2355 | the derivation fails for a member that unsubscribes from a slice: the mesh lacks it, it is no recipient any more, and reclassification leaves it out |
| CompositeMesh.JoinKeepsStructure | crates/blossomsub/src/behaviour.rs:1631-1639 | registering a new composite keeps the reverse index exact |
| CompositeMesh.LeaveKeepsStructure | crates/blossomsub/src/behaviour.rs:1645-1657 | unregistering a composite keeps the reverse index exact, without empty owner lists |
| CompositeMesh.CoveringRelayReached | crates/blossomsub/src/behaviour.rs:1508-1523 | a composite that covers the non-zero bitmask m has all its peers among the recipients of m, if any slice of m is in order |
| CompositeRouter.PickSame | crates/blossomsub/src/behaviour.rs:1587-1602 | up to n peers that cover every slice and are not backed off; all of them if fewer than n |
| CompositeRouter.PickBrokers | crates/blossomsub/src/behaviour.rs:1604-1629 | fills up with peers that cover some slice; all of them if there is room |
| CompositeRouter.MaintainComposite | crates/blossomsub/src/behaviour.rs:3334-3504 | no negative-score member, none disconnected if advertised peers are connected, at most mesh_n_high members; filled only with eligible peers and within the subnet cap, and left below mesh_n only if everyone eligible is in a full bucket; if over-full, exactly mesh_n are left, brokers going before full coverers |
| CompositeRouter.MaintainedExact | crates/blossomsub/src/behaviour.rs:3334-3504 | connected members of non-negative score stay, all of them unless they are over mesh_n_high; whoever else is in is advertised, not explicit, not backed off, of non-negative score, and in same exactly if each slice is covered by one of its bitmasks |
| CompositeRouter.Router.MembersForSlice | crates/blossomsub/src/behaviour.rs:1738-1749 | the union over all owners in the reverse index is the members for the slice |
| CompositeRouter.Router.RebuildSliceMeshes | crates/blossomsub/src/behaviour.rs:1762-1776 | every slice mesh is replaced by, or on a dual-role slice joined with, the members for the slice; other meshes stay |
| CompositeRouter.Router.JoinComposite | crates/blossomsub/src/behaviour.rs:1579-1641 | a new composite with at most mesh_n known peers that are not backed off, those in same covering every slice by an advertised bitmask and brokers one, registered and its slices rebuilt; the index stays exact, its slices are in order and no other is disturbed |
| CompositeRouter.Router.LeaveComposite | crates/blossomsub/src/behaviour.rs:1645-1673 | the composite and its index entries go, exactly its no longer owned slices lose their meshes, shared ones are rebuilt without losing a dual-role peer; the index stays exact and no slice is disturbed |
| CompositeRouter.Router.ReclassifyForPeer | crates/blossomsub/src/behaviour.rs:1696-1730 | a peer that is not a member comes in exactly if there is room, no backoff, and a slice covered by one of its advertised bitmasks; it is in same exactly if every slice is, in broker otherwise; unowned meshes stay as they are and no dual-role slice loses a peer; disturbed are exactly the slices that were and that no changed composite owns |
| CompositeRouter.Router.GraftOne | crates/blossomsub/src/behaviour.rs:2018-2259 | one topic of a GRAFT: what is disturbed was accepted and holds the peer, what was refused stays refused within the message |
| CompositeRouter.Router.ClassifyGrafted | crates/blossomsub/src/behaviour.rs:2263-2295 | after classification every owner of an accepted slice has admitted the peer and every accepted owned slice is in order |
| CompositeRouter.Router.HandleGraft | crates/blossomsub/src/behaviour.rs:1984-2295 | for any list of topics, repeated or mixed, the index stays exact, every accepted owned slice is in order at the end and no other is disturbed, each composite is unchanged or has admitted the peer, and has done so if it or one of its slices was accepted; the mesh of an unowned simple topic stays as it is and the topic is pruned exactly if a backoff is active, the score is negative, or the peer is inbound and the mesh has mesh_n_high members or one of the buckets of the peer is at the subnet cap, and else it gains the peer; a composite is pruned during a backoff, for a negative score, and whenever it refuses as it stands; every accepted topic mesh holds the peer, and no unowned or dual-role mesh loses anyone |
| CompositeRouter.AdmittedExact | crates/blossomsub/src/behaviour.rs:2275-2287 | an admitted peer is in same exactly if it was or covers every slice, a broker otherwise, and no one else moves |
| CompositeRouter.Router.HandlePrune | crates/blossomsub/src/behaviour.rs:2374-2411 | a slice PRUNE takes the peer from same to broker in every owner, leaves everyone else where they are and removes nobody; any other PRUNE takes the peer out of that mesh; a slice PRUNE leaves unowned meshes alone and no dual-role slice loses a peer; the slice is in order afterwards and no other is disturbed |
| CompositeRouter.Router.HandleSubscriptions | crates/blossomsub/src/behaviour.rs:2757-2935 | the advertised topics after the message, the meshes after its insertions and then its removals, and the classification; disturbed are exactly the slices these mesh edits put out of order and no changed composite owns, all of them named in the message or disturbed before |
| CompositeRouter.Router.DisconnectPeer | crates/blossomsub/src/behaviour.rs:4132-4211 | the peer leaves the meshes of its topics and every composite; a slice in order is disturbed exactly if it is no simple subscription, the peer is in its mesh and did not advertise it |
| CompositeRouter.Router.SubscribeTo | crates/blossomsub/src/behaviour.rs:733-1340 | a multi-bit topic becomes a composite, another gets a mesh unless it has one; nothing is disturbed |
| CompositeRouter.Router.UnsubscribeFrom | crates/blossomsub/src/behaviour.rs:764-1499 | a composite is torn down, another topic loses its mesh and is disturbed exactly if a composite owns it |
| CompositeRouter.Router.HeartbeatComposites | crates/blossomsub/src/behaviour.rs:3323-3527 | the pass maintains every composite and puts every owned slice in order from any mesh contents, leaving unowned meshes alone and dropping nobody from a dual-role slice |
| CompositeRouter.Router.HeartbeatPass | crates/blossomsub/src/behaviour.rs:3053-3527 | whatever the per-topic step makes of the other meshes, every owned slice is in order after the composite pass |
| CompositeRouter.Router.MeshRecipients | crates/blossomsub/src/behaviour.rs:1508-1523 | a peer is a recipient exactly if it is in the topic mesh, in the composite or in the mesh of a slice; if any slice of the bitmask is in order the recipients contain all peers of every covering composite |
| CompositeRouter.Router.Run | crates/blossomsub/src/behaviour.rs:733-4211 | over any run of subscribing, unsubscribing, GRAFTs, PRUNEs, subscription messages, connects, disconnects and heartbeats, from any mesh contents, the reverse index stays exact, same and broker disjoint, and every owned slice that no unsubscribing, subscription message or disconnect has put out of order since the last heartbeat is derived from its owners |
| MeshPolicy.SubnetFilter | crates/blossomsub/src/behaviour.rs:3018-3047 | no subnet bucket goes above the larger of the cap and its count before, and every refused candidate is in a full bucket |
| MeshPolicy.FillComposite | crates/blossomsub/src/behaviour.rs:3372-3457 | eligible peers only, at most as many as needed, correctly classified, within the subnet cap; if fewer, everyone left out is in a full bucket |
| MeshPolicy.TrimComposite | crates/blossomsub/src/behaviour.rs:3459-3504 | exactly n members are left, brokers go first, and everyone dropped scores at most what everyone of the same class kept does |
| SimpleMesh.RemovalOrder | crates/blossomsub/src/behaviour.rs:3157-3168 | an order of all peers whose last retain_scores are the best ones |
| SimpleMesh.Trim | crates/blossomsub/src/behaviour.rs:3147-3206 | for every shuffle exactly mesh_n peers stay, at least min(outbound, mesh_outbound_min) of them outbound, and the best retained go only after every unprotected other |
| SimpleMesh.FillLow | crates/blossomsub/src/behaviour.rs:3109-3145 | up to mesh_n, only graftable non-negative peers, within the subnet cap; if the candidates are few, each one left out is in a full bucket, and without a cap the mesh gets as many as there are up to mesh_n |
| SimpleMesh.FillOutbound | crates/blossomsub/src/behaviour.rs:3208-3240 | at most mesh_outbound_min more; short of the minimum only if no outbound candidate is left |
| SimpleMesh.Opportunistic | crates/blossomsub/src/behaviour.rs:3242-3316 | only if the median score of the mesh is below the threshold: at most opportunistic_graft_peers more, each scoring above the median and so above at least half of the mesh, all such peers if they are few, subject to the subnet cap |
| SimpleMesh.AboveHalf | crates/blossomsub/src/behaviour.rs:3254-3280 | a score above the median of a ranked mesh is above that of at least half of it |
| SimpleMesh.Maintain | crates/blossomsub/src/behaviour.rs:3065-3321 | no member of negative score; at most mesh_n_high + mesh_outbound_min + opportunistic_graft_peers members; with at most mesh_n_high good members all of them stay; with fewer than mesh_n_low and no cap the mesh gets mesh_n members or every candidate, and with few candidates each one left out is in a full bucket; with more than mesh_n_high, mesh_n of the old members stay, min(outbound, mesh_outbound_min) of them outbound; and if the mesh had mesh_n_low peers after the fill, or there is no cap, the outbound quota is met or no outbound candidate is left out |
| SimpleMesh.QuotaSkipped | crates/blossomsub/src/behaviour.rs:3208-3316 | with a subnet cap the quota can be missed although the mesh ends with mesh_n_low members: a concrete mesh where the fill draws a peer from a full bucket, the outbound step is skipped, and opportunistic grafting brings in another peer than the outbound candidate |
| Backoff.HeartbeatsSpec | crates/blossomsub/src/backoff.rs:50-53 | heartbeats(d) intervals cover d and no more than one interval beyond |
| Backoff.TickedKeeps | crates/blossomsub/src/backoff.rs:147-174 | a heartbeat drops a pair exactly if its slot is due and deadline plus slack have passed, and leaves all other deadlines |
| Backoff.HeldExactly | crates/blossomsub/src/backoff.rs:74-174 | over any run of updates and heartbeats in which no update asks more of a pair, the pair stays with its deadline exactly as long as no heartbeat visits its slot after deadline and slack |
| Backoff.NeverDroppedEarly | crates/blossomsub/src/backoff.rs:74-174 | over any run at all, a pair is not dropped by heartbeats before its deadline plus slack, and its deadline never moves earlier |
| Backoff.StaysUntilItsSlot | crates/blossomsub/src/backoff.rs:147-174 | over any heartbeats and any updates of other pairs before its slot comes up, a pair stays with its deadline, and the slot comes nearer by one each heartbeat |
| Backoff.GoneWithinOneRing | crates/blossomsub/src/backoff.rs:147-174 | once deadline and slack are over, one ring length of heartbeats, with any updates of other pairs in between, drops the pair |
| Backoff.ExactHeartbeat | crates/blossomsub/src/backoff.rs:55-174 | a backoff of at most prune_backoff, followed by any updates that do not ask more of the pair and by heartbeats at least an interval apart, stays until and goes at exactly the (heartbeats(time) + slack + 1)-th |
| Backoff.Storage.constructor | crates/blossomsub/src/backoff.rs:55-70 | an empty ring of heartbeats(prune_backoff) + slack + 1 slots |
| Backoff.Storage.UpdateBackoff | crates/blossomsub/src/backoff.rs:74-116 | afterwards the pair has the later of the stored and the new deadline and no other pair changes; a later deadline moves the pair to its new slot; a pair stays in slot i exactly if stored with index i |
| Backoff.Storage.Heartbeat | crates/blossomsub/src/backoff.rs:147-174 | the retain loop drops exactly the expired pairs of the current slot from ring and map and advances the index |
| Backoff.Storage.Perform | crates/blossomsub/src/backoff.rs:74-174 | any sequence of updates and heartbeats: is_backoff_with_slack stays true for every pair until a heartbeat after its deadline plus slack |
| SendQueue.ShedSpec | crates/blossomsub/src/handler.rs:265-303 | what a shed keeps is an in-order part of the queue under the cap, with the newest bulk and the newest control; control is dropped only when no bulk byte is left |
| SendQueue.ControlOutlivesBulk | crates/blossomsub/src/handler.rs:265-303 | with bulk RPCs of positive length no control RPC is dropped while any bulk remains |
| SendQueue.SurvivorsNewest | crates/blossomsub/src/handler.rs:241-303 | if the queued bulk is the newest of all bulk ever queued and the control the newest of all control, so it is after the next send and shed |
| SendQueue.EmptyBulkOutlivesControl | crates/blossomsub/src/handler.rs:265-303 | a remark on sharpness: a bulk RPC of length zero, which is never queued, could outlive a dropped control RPC |
| SendQueue.DropBulkMinimal | crates/blossomsub/src/handler.rs:276-288 | pass 1 drops no more bulk than needed |
| SendQueue.DropFrontMinimal | crates/blossomsub/src/handler.rs:292-303 | pass 2 drops no more than needed |
| SendQueue.Handler.DropBulkPass | crates/blossomsub/src/handler.rs:276-288 | the rebuild loop keeps exactly what pass 1 of the specification keeps, with exact counters |
| SendQueue.Handler.ShedQueue | crates/blossomsub/src/handler.rs:265-336 | the queue after both passes, the stuck counter, and the switch to closing at exactly 2048 consecutive sheds |
| SendQueue.Handler.QueueSend | crates/blossomsub/src/handler.rs:241-254 | in every run the backlog is within the cap, counters are the sums, survivors are in order, and they are the newest bulk and the newest control of all that was ever queued; a send drops control only if no bulk is left; once closing nothing is queued any more |
| SendQueue.Handler.Drain | crates/blossomsub/src/handler.rs:410-425 | front first; what has been sent and what is queued together are a subsequence of all that was handed in |
| SendQueue.Handler.Flushed | crates/blossomsub/src/handler.rs:460-469 | a flush resets the stuck counter |
| SendQueue.Handler.Perform | crates/blossomsub/src/handler.rs:241-469 | any sequence of sends, drains and flushes keeps these invariants, hands out in order what was queued, and nothing once closing |
| MessageCache.BytesOf | crates/blossomsub/src/mcache.rs:40-42 | the byte total of a set of messages is independent of the order of counting |
| MessageCache.Cache.constructor | crates/blossomsub/src/mcache.rs:82-91 | an empty cache with the given number of windows |
| MessageCache.Cache.EvictToBudget | crates/blossomsub/src/mcache.rs:104-137 | drains a minimal run of oldest windows, never the current one, with an exact byte count; the request counts of the others stay |
| MessageCache.Cache.Put | crates/blossomsub/src/mcache.rs:142-164 | false and no change for a known id; otherwise the message is added and afterwards either the budget holds or all older windows are empty; the byte count grows by the lengths of id, data and topic if nothing is evicted; the request counts of what stays are unchanged |
| MessageCache.Cache.ObserveDuplicate | crates/blossomsub/src/mcache.rs:167-177 | the source peer is recorded for messages not yet validated only |
| MessageCache.Cache.GetWithIwantCounts | crates/blossomsub/src/mcache.rs:187-208 | answers for validated cached messages only and raises exactly that one count |
| MessageCache.Cache.Validate | crates/blossomsub/src/mcache.rs:213-224 | marks the message and hands out the recorded peers once |
| MessageCache.Cache.Shift | crates/blossomsub/src/mcache.rs:257-278 | the messages of the oldest window go with their request counts, and an empty window comes in front |
| MessageCache.Cache.Remove | crates/blossomsub/src/mcache.rs:281-294 | the message and its counts go, with an exact byte count, all others and the window entry stay |
| MessageCache.Cache.Perform | crates/blossomsub/src/mcache.rs:142-294 | any sequence of calls does to the cached ids and windows what the abstract run does |
| MessageCache.HeldExactly | crates/blossomsub/src/mcache.rs:104-294 | over any run a message stays exactly until it is removed or the oldest window that mentions its id is drained by a shift or by eviction |
| MessageCache.Lifetime | crates/blossomsub/src/mcache.rs:142-294 | without removal and eviction a message survives exactly as many shifts as there are windows behind the oldest that mentions its id; that is all but one exactly if no older window mentions it at the put, as it does after a removal |
| TimeCache.Cache.RemoveExpiredKeys | crates/blossomsub/src/time_cache.rs:132-144 | a front of expired entries goes from list and map, nothing else, and what is left is unexpired |
| TimeCache.Cache.EnforceCapacity | crates/blossomsub/src/time_cache.rs:151-160 | the oldest entries go until exactly max_len are left, or none if there were no more than that |
| TimeCache.Cache.Lookup | crates/blossomsub/src/time_cache.rs:162-174 | after pruning a key is present exactly if one of the last max_len accepted inserts was of it and is younger than ttl |
| TimeCache.Cache.Insert | crates/blossomsub/src/time_cache.rs:202-209 | true exactly if each of the last max_len accepted inserts of the key is at least ttl old; map and list keep the same keys and expiries in order, and never more than max_len + 1 of them |
| TimeCache.Cache.Contains | crates/blossomsub/src/time_cache.rs:211-213 | presence in the list, expired or not |
| Framing.PutUvarint | crates/blossomsub/src/protocol.rs:198-210 | appends the LEB128 form of the value |
| Framing.UvarintWidth | crates/blossomsub/src/protocol.rs:198-210 | the prefix takes at most n bytes exactly if the value is below 2^(7 n) |
| Framing.PeekUvarint | crates/blossomsub/src/protocol.rs:177-194 | incomplete exactly for at most ten bytes that all continue, malformed exactly if the first ten of more do, otherwise the bytes up to the first that does not, as base 128 digits modulo 2^64 |
| Framing.PeekRoundTrip | crates/blossomsub/src/protocol.rs:177-210 | peek_uvarint undoes put_uvarint for every u64 whatever follows |
| Framing.PeekOfStrictPrefix | crates/blossomsub/src/protocol.rs:177-210 | every strict prefix of a written prefix is incomplete |
| Framing.PeekKind | crates/blossomsub/src/protocol.rs:177-194 | incomplete exactly for at most ten continuation bytes, malformed exactly for more than ten |
| Framing.Encode | crates/blossomsub/src/protocol.rs:287-305 | refuses bodies over the limit, otherwise appends prefix and body |
| Framing.DecodeOfEncode | crates/blossomsub/src/protocol.rs:287-336 | decode undoes encode and leaves the following bytes |
| Framing.DecodeOfStrictPrefix | crates/blossomsub/src/protocol.rs:312-336 | an incomplete frame is neither delivered nor rejected |
| Framing.OverlongRejected | crates/blossomsub/src/protocol.rs:312-336 | a prefix over the limit is rejected at once, whatever follows |
| Framing.DecodeExact | crates/blossomsub/src/protocol.rs:312-336 | rejected exactly for a malformed prefix or one over the limit, waiting exactly for an incomplete prefix or body, and a frame exactly if the buffer is its prefix, its body and the rest |
| Framing.DrainUntilOverlong | crates/blossomsub/src/protocol.rs:312-336 | good frames followed by one over the limit: exactly the good ones come out and then decode fails |
| Framing.DrainSplits | crates/blossomsub/src/protocol.rs:312-336 | for every byte string and every cut, decoding the two parts one after the other gives what decoding the whole gives, errors included |
| Framing.Reader.Receive | crates/blossomsub/src/protocol.rs:312-336 | whatever the chunks, the frames handed out so far and those still in the buffer are those of the whole stream |
| Framing.Reader.Decode | crates/blossomsub/src/protocol.rs:312-336 | one frame off the front, never longer than the limit and as long as the prefix says; an incomplete or rejected buffer stays as it is, and it is rejected exactly for a malformed prefix or one over the limit |
| Framing.Feed | crates/blossomsub/src/protocol.rs:312-336 | for every stream and every way of cutting it into chunks, decoding as far as possible after each chunk and stopping at the first failure yields the frames of the whole stream, none over the limit, and fails exactly if the whole stream does |
| Framing.Transfer | crates/blossomsub/src/protocol.rs:287-336 | for every list of bodies within the limit and every way of cutting their encodings into chunks, exactly those bodies come out, in order |

## Left out

- DilithiumScheme.Verify: what a build without overflow checks answers after a difference in `intt` has wrapped around is not modelled; there is no verdict then.
- DilithiumScheme.Signature: takes a bound on the number of rounds, which the source does not have; that the rejection loop ends is a matter of probability.
- DilithiumScheme.KeyPair: buffers that the source reuses between steps are separate values here, and byte strings are returned rather than written in place; the same holds for all packing functions and for the Kyber byte buffers.
- KyberScheme.CcaDecrypt: constant-time behaviour is not modelled; `Choose` states which secret the masked XOR selects.
- MeshPolicy.RandomPeers: the random generator is not modelled; any choice of the right size is allowed.
- Backoff.Storage.Heartbeat: the two-level hash map of backoffs per topic and peer is one map over pairs.
- MessageCache.Cache.GetWithIwantCounts: request counts are unbounded, the source counts in u32.
- SendQueue.Handler.QueueSend: that a bulk RPC is encoded in at least one byte is taken from the protobuf encoding of a message, which is not modelled.
- CompositeRouter.Router.HandleGraft: score penalties, peer exchange and the PRUNE and GRAFT messages sent are not part of the result.
- Framing.Reader.Decode: protobuf decoding of a frame body, and message validation after it, are not modelled.
- SHA-2, SHA-3, SHAKE, AES, GCM and HMAC: arbitrary functions where needed.
- CompositeRouter.Router.SubscribeTo: the peers of a new simple mesh, from the fanout or at random, are given; fanout maintenance is not modelled.
- CompositeRouter.Router.HandleSubscriptions: the entries that pass the subscription filter are given, and so is what the backoffs say before and after the mesh edits.
- Explicit peers: the set is fixed.
- Peer scoring: the floating-point formulas; a score is a real number here.
- get_gossip_message_ids of the message cache: a read-only listing.
- Libp2p swarm, asynchronous streams, metrics, tracing and event notification.
- Oblivious transfer, KZG, BLS and the other crates of the repository.
