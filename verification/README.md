# OpenClickNP: a model in Dafny

OpenClickNP compiles packet-processing graphs of small elements to FPGA kernels and ships the run-time
library those elements use. This project models, in Dafny, the parts of it that compute something with a
mathematical specification, and proves that they meet it:

- **Multi-precision RSA arithmetic** (`Limbs`, `Bits`, `Montgomery`, `BigInt`, `ModExp`, `Crt`, `Rsa`, with `Arith`
  and `Fermat` underneath). A number is a sequence of 64-bit limbs of any length and `Val` is the natural number
  it stands for, so every statement holds for all widths at once. The carry and borrow chains, the CIOS
  Montgomery product, the Hensel lifting, the bit-serial reductions, both exponentiations and the CRT
  recombination are loops over limbs, each proved against `Val`.
- **The RSA and Montgomery elements** (`LimbFlits`, `RsaMachine`, `RsaElement`, `MontMulElement`). `RsaMachine` is the
  eight-state handler under the wrapper loop as a step relation and states what whole runs do;
  `RsaElement` is the element with its buffers and refines that relation. The number of flits per operand is
  a parameter: 4, 8 and 16 are the three elements of the repository.
- **Tarjan's algorithm and the cycle warnings** (`Graphs`, `TarjanProof`, `Cycles`).
- **AES-128, counter mode and the AES_CTR element** (`AesTables`, `AesColumns`, `AesField`, `Aes`, `AesKeys`,
  `AesBytes`, `AesCtr`, `AesCtrElement`).
- **SHA-1, its incremental form and its two elements** (`Sha1`, `Sha1Stream`, `Sha1Recurrence`, `ShaElements`).
- **Lowering and stream wiring** (`Lowering`, `Wiring`): two passes, and the edge relation they realise.
- **Codecs** (`PacketCodec`, `LimbCodec`): packets and flits, bytes and limbs.

Conventions. The `U<N>` structure is copied by value in the source and is a sequence here; the accumulators
and buffers that loops write in place are arrays. Wrap-around is written out (`% WORD`, `bv32`, `bv8`).
`IsOdd(n) ==> ...` in a contract means that the code also runs for other moduli, and then only the rest of
the contract holds. An element's flit is seen as 32 payload bytes (`Flits.Flit`) or as four 64-bit lanes
(`LimbFlits.Flit`), whichever the element uses.

## Results that differ from the documentation

- CRT decryption (`bigint.hpp:376-467`) is documented for all keys with p, q of half width. The negative
  branch adds p once, so one ciphertext is decrypted correctly exactly when `(c^dq mod q) <= (c^dp mod p) + p`
  (`Rsa.DecryptsIff`), and a private key decrypts every ciphertext correctly exactly when q < p
  (`Rsa.KeyDecryptsIff`). The valid key p = 3, q = 11, e = 3, d = 7 decrypts 10 to 32 (`Rsa.OrderOfPrimesMatters`).
- The comments over `mont_mul` promise an accumulator in [0, 2n) and a result in [0, n), and MontMul_1024 promises
  a * b / R mod n for any operands. For every odd n the result is determined: with q the only number below
  R = 2^(64 N) for which R divides a * b + q * n, it is t = (a * b + q * n) / R, less n if t >= n. It is the promised
  residue exactly when a * b + q * n < 2 n R (`Montgomery.MontReducedIff`, `MontMulElement.DocumentedIff`), which
  holds whenever a * b <= n R, hence for every b <= n, and fails whenever a * b >= 2 n R. With n = 3 and a and b
  all ones the element sends R - 4, at every width (`MontMulElement.UnreducedOperands`).
- The SHA-1 length field is the bit length exactly for messages below 2^61 bytes (`Sha1Stream.LengthFieldExact`).
- AES_CTR does not copy the padding count of a flit. Two such elements in series return a packet followed by
  the zeros of its last flit, hence the packet itself exactly when its length is a multiple of 32
  (`PacketCodec.PacketThroughCtr`).
- A port used by two edges keeps only the last stream recorded for it, so the wiring realises all edges between
  user kernels exactly when no port of one is used by another edge (`Wiring.AllRealisedIff`). Ports of
  pseudo-elements such as Drop may be used any number of times (`Wiring.UserPortsUsedOnce`).

## Model

| member | source | states |
|---|---|---|
| `BigInt.Cmp` | runtime/include/openclicknp/bigint.hpp:63-69 | the sign of the comparison of the two numbers, for any number of limbs |
| `BigInt.Add` | runtime/include/openclicknp/bigint.hpp:72-81 | result plus carry times 2^(64 N) is the sum, and the carry is a bit |
| `BigInt.Sub` | runtime/include/openclicknp/bigint.hpp:84-93 | the borrow is 1 exactly when a < b, and the result is a - b + borrow * 2^(64 N) |
| `BigInt.MulAddRow` | runtime/include/openclicknp/bigint.hpp:100-106 | one row adds x * b into the accumulator, the carry-out included, and touches nothing else |
| `BigInt.Mul` | runtime/include/openclicknp/bigint.hpp:96-109 | the 2N limbs hold exactly the product |
| `BigInt.LowLimbCleared` | runtime/include/openclicknp/bigint.hpp:153-166 | with the negated inverse word, the chosen multiple of n makes the low limb zero |
| `BigInt.MontRound` | runtime/include/openclicknp/bigint.hpp:137-169 | one outer iteration keeps the running value zero or below b + n and the top limb zero, and divides t + x * b + m * n by 2^64 exactly |
| `BigInt.ReduceOnce` | runtime/include/openclicknp/bigint.hpp:171-176 | n is subtracted exactly when the accumulator, its extra limb included, is not below n |
| `BigInt.MontMul` | runtime/include/openclicknp/bigint.hpp:127-177 | for odd n the result is exactly (a * b + q * n) / R, less n if that is not below n, with q the only number below R = 2^(64 N) that makes the division exact, whether b <= n or not; so result * R is congruent to a * b, and the result is below n or below b |
| `Montgomery.MontQuotientUnique` | runtime/include/openclicknp/bigint.hpp:153-164 | for odd n there is only one multiple of n below n R that makes a value divisible by R |
| `Montgomery.MontReducedIff` | runtime/include/openclicknp/bigint.hpp:111-125 | the result is below n if and only if a * b + q * n < 2 n R; it is when a * b <= n R and is not when a * b >= 2 n R |
| `Montgomery.UnreducedExample` | runtime/include/openclicknp/bigint.hpp:119-120 | at every width, n = 3 and the largest operands give R - 4 |
| `Bits.SwapWords` | runtime/include/openclicknp/bigint.hpp:262-267 | the xor-mask swaps two words when cond is 1 and changes nothing when it is 0 |
| `Bits.SelectWord` | runtime/include/openclicknp/bigint.hpp:252-255 | the and-or mask selects one of two words |
| `Bits.ConstTimeSelect` | runtime/include/openclicknp/bigint.hpp:251-256 | dst becomes src or stays, for every width |
| `Bits.ConstTimeSwap` | runtime/include/openclicknp/bigint.hpp:260-268 | both arrays are exchanged or both stay |
| `ModExp.HenselStep` | runtime/include/openclicknp/bigint.hpp:186-188 | an inverse modulo p becomes an inverse modulo p^2 |
| `ModExp.ComputeNInv` | runtime/include/openclicknp/bigint.hpp:181-191 | six rounds give n0 * nInv = -1 mod 2^64 for every odd n |
| `ModExp.DoubleMod` | runtime/include/openclicknp/bigint.hpp:203-221 | one doubling step keeps the accumulator equal to 2x mod n across a bit carried out of the top limb |
| `ModExp.ComputeRModN` | runtime/include/openclicknp/bigint.hpp:199-221 | 2^(64 N) mod n for every n > 0 |
| `ModExp.ComputeR2ModN` | runtime/include/openclicknp/bigint.hpp:228-246 | 2^(128 N) mod n for every n > 0 |
| `ModExp.BitLen` | runtime/include/openclicknp/bigint.hpp:47-55 | the number of binary digits of the value, 0 for 0 |
| `Limbs.LimbBit` | runtime/include/openclicknp/bigint.hpp:41-44 | bit i of the limb array is bit i of the number |
| `ModExp.RadixCancel` | runtime/include/openclicknp/bigint.hpp:111-127 | Montgomery's R can be cancelled modulo every odd n, so a Montgomery product is unique |
| `ModExp.MontTimes` | runtime/include/openclicknp/bigint.hpp:348-356 | the product of two Montgomery forms is the Montgomery form of the product |
| `ModExp.MontEnter` | runtime/include/openclicknp/bigint.hpp:338-342 | multiplying any m, reduced or not, by R^2 gives its Montgomery form |
| `ModExp.MontLeave` | runtime/include/openclicknp/bigint.hpp:358-361 | multiplying by 1 gives back v mod n |
| `ModExp.ModExp` | runtime/include/openclicknp/bigint.hpp:333-361 | m^e mod n for every odd n (1 included), every e (0 included) and every m of N limbs |
| `ModExp.LadderStep` | runtime/include/openclicknp/bigint.hpp:304-313 | one rung keeps the pair at consecutive powers of m whichever way the swap went |
| `ModExp.ModExpConstTime` | runtime/include/openclicknp/bigint.hpp:282-318 | the ladder returns m^e mod n too, so both exponentiations agree on all inputs with odd n |
| `Crt.ShiftInBit` | runtime/include/openclicknp/bigint.hpp:396-405 | the in-place shift doubles the accumulator and brings one bit in, the carried-out bit included |
| `Crt.AbsorbBit` | runtime/include/openclicknp/bigint.hpp:395-414 | the high word returns to 0 and the accumulator stays the prefix of src modulo the modulus |
| `Crt.ReduceToM` | runtime/include/openclicknp/bigint.hpp:390-416 | src mod the half-width modulus, for every modulus > 0, top bit set or not |
| `Crt.Difference` | runtime/include/openclicknp/bigint.hpp:425-433 | m1 - m2, or that plus p, or (when one p is not enough) that plus p wrapped at 2^(64 M) |
| `Crt.MulMod` | runtime/include/openclicknp/bigint.hpp:434-442 | four Montgomery products give x * y mod p |
| `Crt.MulTruncated` | runtime/include/openclicknp/bigint.hpp:444-463 | the truncated product loses no carry: it is exactly h * q |
| `Crt.NoCarry` | runtime/include/openclicknp/bigint.hpp:464-466 | m2 + h * q fits, and is below p * q |
| `Crt.Garner` | runtime/include/openclicknp/bigint.hpp:425-466 | m2 + h * q is congruent to m1 modulo p if and only if m2 <= m1 + p |
| `Crt.RsaCrtDecrypt` | runtime/include/openclicknp/bigint.hpp:376-467 | for odd moduli with q inverted modulo p the output is Garner's formula on the two half-results, is below p * q, equals c^dq modulo q, and equals c^dp modulo p if and only if the single addition of p suffices |
| `Fermat.LittleFermat` | runtime/include/openclicknp/bigint.hpp:363-377 | x^p = x modulo every prime p |
| `Fermat.ExponentReduction` | runtime/include/openclicknp/bigint.hpp:363-377 | exponents congruent modulo p - 1 give the same power modulo p if and only if x is no multiple of p, or both are zero, or neither is |
| `Rsa.CombinePrimes` | runtime/include/openclicknp/bigint.hpp:363-377 | congruence modulo two distinct primes is congruence modulo their product |
| `Rsa.RecombinedIsPower` | runtime/include/openclicknp/bigint.hpp:376-467 | the recombined value is c^d mod p * q if and only if c^dq mod q <= (c^dp mod p) + p |
| `Rsa.CrtDecrypts` | runtime/include/openclicknp/bigint.hpp:376-467 | for distinct primes with q < p the decryption returns c^d mod p * q for every c of N limbs |
| `Rsa.DecryptsIff` | runtime/include/openclicknp/bigint.hpp:376-467 | under a private key, one ciphertext is decrypted to c^d mod p * q if and only if c^dq mod q <= (c^dp mod p) + p |
| `Rsa.WrongForSome` | runtime/include/openclicknp/bigint.hpp:425-433 | when q > p + 1, a ciphertext that is 0 modulo p and -1 modulo q has half-results too far apart for one addition of p |
| `Rsa.KeyDecryptsIff` | runtime/include/openclicknp/bigint.hpp:376-467 | a private key (distinct odd primes, exponents that undo each other) decrypts every ciphertext of its width correctly if and only if q < p |
| `Rsa.OrderOfPrimesMatters` | runtime/include/openclicknp/bigint.hpp:425-433 | a valid key on limbs, p = 3 and q = 11, that decrypts 10 to 32 |
| `Rsa.RsaRoundTrip` | runtime/include/openclicknp/bigint.hpp:363-377 | for distinct primes and e * d congruent to 1 modulo p - 1 and q - 1, (m^e mod n)^d mod n = m for every m < n |
| `RsaMachine.InvKept` | elements/crypto/RSA_ModExp_1024.clnp:65-168 | every handler call keeps the shape of the state and, for odd moduli, what the registers hold in each of the eight states |
| `RsaMachine.ArrivedCase` | elements/crypto/RSA_ModExp_1024.clnp:66-89 | no call loses, duplicates or reorders an operand limb, or takes one of the next operand early |
| `RsaMachine.RunKeepsInv` | compiler/src/backends/sw_emu/emit.cpp:111-163 | after every run, all arrived limbs are finished operands, then the current one, then a latch, and the outputs are one group of flits for each finished job, then part of the current result |
| `RsaMachine.RunComputesPowers` | elements/crypto/RSA_ModExp_1024.clnp:65-168 | for every interleaving of arrivals on the three ports and whatever the other jobs are, each job sends exactly FLITS flits, and group k is the framed m_k^e_k mod n_k of the k-th operands if n_k is odd |
| `RsaMachine.RunComputesOnFlits` | elements/crypto/RSA_ModExp_1024.clnp:65-168 | on the flits themselves, lane i of flit j being the limb at 2^(64 (4 j + i)): output group k carries m^e mod n for the numbers m, e and n carried by the k-th groups that arrived on ports 1, 2 and 3, n odd, with the start and end flags at its ends |
| `RsaMachine.ArrivedCount` | elements/crypto/RSA_ModExp_1024.clnp:66-89 | every flit that arrived on a port is one of a finished operand, of the current one, or in the latch |
| `RsaMachine.BeginsWhenArrived` | elements/crypto/RSA_ModExp_1024.clnp:66-89 | a call made while collecting ends the collection if and only if all the flits of the next job have arrived |
| `RsaMachine.CountsDown` | elements/crypto/RSA_ModExp_1024.clnp:90-166 | every call after collection decreases the remaining count by one, outputs in the last FLITS of them, and ends in COLLECT with all indices zero |
| `RsaMachine.ExactCalls` | elements/crypto/RSA_ModExp_1024.clnp:85-166 | the last output flit leaves on exactly the (3 + 3 * bitlen(e) + FLITS)-th call after collection |
| `RsaElement.RsaModExp.CollectHandler` | elements/crypto/RSA_ModExp_1024.clnp:66-89 | the COLLECT branch on the real buffers is the collection step of the specification (which limb each lane becomes is in RunComputesOnFlits) |
| `RsaElement.RsaModExp.InitHandler` | elements/crypto/RSA_ModExp_2048.clnp:90-105 | the registers receive the inverse word, the Montgomery form of m and that of 1 |
| `RsaElement.RsaModExp.EmitHandler` | elements/crypto/RSA_ModExp_4096.clnp:154-166 | one framed flit of the result, and the reset after the last |
| `RsaElement.RsaModExp.Iterate` | compiler/src/backends/sw_emu/emit.cpp:111-163 | one iteration of the wrapper on the element's buffers is a step of the specification |
| `MontMulElement.ProductIs` | runtime/include/openclicknp/bigint.hpp:127-177 | for odd n the limbs sent are those of the exact product, for every a and b |
| `MontMulElement.CallKeeps` | elements/crypto/MontMul_1024.clnp:38-90 | every call keeps the correspondence between what arrived on both ports, b before n, and what was sent |
| `MontMulElement.DocumentedIff` | elements/crypto/MontMul_1024.clnp:2-6 | for odd n the element sends a * b / R mod n if and only if a * b + q * n < 2 n R |
| `MontMulElement.DocumentedFor` | elements/crypto/MontMul_1024.clnp:2-6 | so it does whenever b <= n, or a * b <= n R |
| `MontMulElement.UnreducedOperands` | elements/crypto/MontMul_1024.clnp:2-6 | at every width, operands with b > n for which it does not |
| `MontMulElement.KthProduct` | elements/crypto/MontMul_1024.clnp:60-90 | whatever the other operands are, each product is sent in exactly FLITS flits, and group k is the framed product of the k-th a and the k-th b and n if that n is odd |
| `MontMulElement.MontMul1024.SendsProducts` | elements/crypto/MontMul_1024.clnp:38-90 | on the flits themselves: output group k carries the exact Montgomery product of the number in group k of port 1 and those in groups 2 k and 2 k + 1 of port 2, for an odd modulus, with the flags at its ends |
| `MontMulElement.CallSends` | elements/crypto/MontMul_1024.clnp:60-63 | a call sends a flit if and only if all the flits of the product under way have arrived |
| `MontMulElement.MontMul1024.Collect` | elements/crypto/MontMul_1024.clnp:39-59 | the two collections on the real buffers, b first and then n on the second port (which limb each lane becomes is in SendsProducts) |
| `MontMulElement.MontMul1024.Iterate` | elements/crypto/MontMul_1024.clnp:38-90 | one wrapper iteration keeps the element's history, appends exactly what arrived and what was sent, and sends a flit exactly when the operands are all there |
| `Graphs.SuccessorsAreTargets` | compiler/src/analyses/cycles.cpp:29-33 | the successor lists are the edge relation |
| `Cycles.Tarjan.constructor` | compiler/src/analyses/cycles.cpp:29-33 | the table built from the edges holds every vertex's successors, and nothing is visited |
| `Cycles.Tarjan.Visit` | compiler/src/analyses/cycles.cpp:39-46 | one successor explored, or its index taken when it is on the stack, keeps low the index of a stack vertex that v reaches, and not above that of any successor seen on the stack |
| `Cycles.Tarjan.PopComponent` | compiler/src/analyses/cycles.cpp:47-56 | popping to v emits exactly what lay from v up on the stack |
| `Cycles.Tarjan.Strong` | compiler/src/analyses/cycles.cpp:35-57 | from any reachable state of the search, v and all it reaches are visited, every emitted component is a strongly connected component, and low is v's own index when v was popped and otherwise that of a stack vertex v reaches; the recursion terminates |
| `TarjanProof.StaysAbove` | compiler/src/analyses/cycles.cpp:47-56 | at a root, every path from it stays in finished components or above it on the stack |
| `TarjanProof.PoppedIsComponent` | compiler/src/analyses/cycles.cpp:47-55 | what a root pops is one whole component: its members and no others are mutually reachable |
| `Cycles.Tarjan.Run` | compiler/src/analyses/cycles.cpp:59-63 | the result partitions the vertices reachable from the kernels into the strongly connected components |
| `Cycles.ReportsAreExact` | compiler/src/analyses/cycles.cpp:70-86 | for any such partition the reports are whole components, disjoint, covering exactly the vertices at risk |
| `Cycles.AtRiskByKernels` | compiler/src/analyses/cycles.cpp:71-78 | with distinct names, a vertex is at risk exactly when it shares a cycle with another and no host-controlled kernel is on a cycle with it |
| `Cycles.AnalyzeCycles` | compiler/src/analyses/cycles.cpp:68-88 | a vertex is named in a warning exactly when a kernel reaches it, it shares a cycle with another vertex, and no vertex on its cycles is host-controlled; each component is named once; the result is always true |
| `AesTables.SBoxesAreInverse` | runtime/include/openclicknp/aes128.hpp:26-64 | the two tables are inverse permutations of the 256 bytes |
| `AesField.SBoxIsAffineOfInverse` | runtime/include/openclicknp/aes128.hpp:26-44 | every table entry is the affine map of the field inverse of its index (section 5.1.1 of FIPS 197) |
| `AesField.ConstantProducts` | runtime/include/openclicknp/aes128.hpp:148-155 | the four constant multipliers are products in GF(2^8) |
| `AesField.MixColumnIsMatrix` | runtime/include/openclicknp/aes128.hpp:120-129 | the sum-and-double form is the matrix of section 5.1.3 of FIPS 197 |
| `AesColumns.MixColumnsAreInverse` | runtime/include/openclicknp/aes128.hpp:120-129 | mixing and inverse mixing of a column undo each other, both ways |
| `Aes.ShiftRowsInto` | runtime/include/openclicknp/aes128.hpp:114-119 | the sixteen assignments rotate row r left by r |
| `Aes.InvShiftRowsInto` | runtime/include/openclicknp/aes128.hpp:171-177 | the sixteen assignments rotate row r right by r |
| `Aes.MixColumnsInPlace` | runtime/include/openclicknp/aes128.hpp:120-129 | the in-place loop mixes each of the four columns |
| `Aes.InvMixColumnsInPlace` | runtime/include/openclicknp/aes128.hpp:182-195 | the in-place loop inverse-mixes each of the four columns |
| `Aes.EncryptBlock` | runtime/include/openclicknp/aes128.hpp:105-144 | the loops compute the cipher, also when output and input are the same array (its bytes are in FirstState, RoundBytes and EncryptBytes) |
| `Aes.DecryptBlock` | runtime/include/openclicknp/aes128.hpp:163-207 | the loops compute the inverse cipher (its bytes are in LastState, InvRoundBytes and DecryptBytes) |
| `AesBytes.FirstState` | runtime/include/openclicknp/aes128.hpp:108 | byte i of the first state is byte i of the block xor byte i of the schedule |
| `AesBytes.RoundBytes` | runtime/include/openclicknp/aes128.hpp:110-133 | each column after round r is the matrix of section 5.1.3 of FIPS 197 on the four substituted bytes that the row shift brings in, xor bytes 16 r to 16 r + 15 of the schedule |
| `AesBytes.EncryptBytes` | runtime/include/openclicknp/aes128.hpp:136-144 | byte 4 c + j of the ciphertext is the substituted byte of row j, column c + j, of the last state, xor byte 160 + 4 c + j of the schedule |
| `AesBytes.LastState` | runtime/include/openclicknp/aes128.hpp:167 | the inverse cipher starts from the block xor the last sixteen bytes of the schedule |
| `AesBytes.InvRoundBytes` | runtime/include/openclicknp/aes128.hpp:169-195 | each column with round r undone is the matrix of section 5.3.3 on the four bytes of the inverse row shift, substituted back and xor the round key |
| `AesBytes.DecryptBytes` | runtime/include/openclicknp/aes128.hpp:197-206 | the plaintext bytes, xor the first sixteen bytes of the schedule |
| `Aes.Undone` | runtime/include/openclicknp/aes128.hpp:163-195 | after undoing rounds 9 to r the state is what the cipher had before mixing columns in round r |
| `Aes.DecryptEncrypt` | runtime/include/openclicknp/aes128.hpp:105-207 | decryption undoes encryption for every block and every 176 bytes of round keys |
| `Aes.EncryptDecrypt` | runtime/include/openclicknp/aes128.hpp:105-207 | encryption undoes decryption for every block and every 176 bytes of round keys |
| `AesKeys.RconTable` | runtime/include/openclicknp/aes128.hpp:71-74 | the table holds the powers of x in the field |
| `AesKeys.KeyExpand` | runtime/include/openclicknp/aes128.hpp:81-102 | the loop computes the schedule of section 5.2 of FIPS 197 |
| `AesBytes.ScheduleStarts` | runtime/include/openclicknp/aes128.hpp:83 | the schedule starts with the key |
| `AesBytes.ScheduleBytes` | runtime/include/openclicknp/aes128.hpp:84-101 | each later word is the word sixteen bytes back xor the previous one, which at the start of a round key is rotated, substituted and given the round constant |
| `AesKeys.OneRoundKeyDeterminesTheKey` | runtime/include/openclicknp/aes128.hpp:81-102 | two keys agree on any one round key exactly when they are equal |
| `AesCtr.IncrementValue` | runtime/include/openclicknp/aes128.hpp:228-232 | the carry loop adds one modulo 256^k |
| `AesCtr.IncrementInPlace` | runtime/include/openclicknp/aes128.hpp:228-232 | the loop over bytes 15 to 8 with its early exit steps the counter |
| `AesCtr.CounterIs` | runtime/include/openclicknp/aes128.hpp:211-219 | block k is exactly the block with iv's high half and low64(iv) + k mod 2^64 |
| `AesCtr.CountersDistinct` | runtime/include/openclicknp/aes128.hpp:211-219 | two counter blocks are equal exactly when their positions differ by a multiple of 2^64 |
| `AesCtr.KeyStreamBlocksDistinct` | runtime/include/openclicknp/aes128.hpp:216-235 | two key-stream blocks are equal exactly when their positions differ by a multiple of 2^64 |
| `AesCtr.XCryptTwice` | runtime/include/openclicknp/aes128.hpp:209-235 | applying the mode twice is the identity, for every length |
| `AesCtr.XCryptBytes` | runtime/include/openclicknp/aes128.hpp:225-227 | byte i of the output is byte i of the input xor byte i mod 16 of the enciphered counter block i / 16 |
| `AesCtr.XCryptAppend` | runtime/include/openclicknp/aes128.hpp:216-235 | a message can be cut at any block boundary and continued from the counter reached |
| `AesCtr.CtrXCrypt` | runtime/include/openclicknp/aes128.hpp:216-235 | each byte is xored with its key-stream byte, partial last block included, in place or not, and nothing beyond len changes |
| `AesCtrElement.AesCtrElement.Handle` | elements/crypto/AES_CTR.clnp:26-44 | one flit enciphered and the counter advanced by two blocks |
| `AesCtrElement.AesCtrElement.Signal` | elements/crypto/AES_CTR.clnp:45-59 | signal 1 replaces the key schedule only, signal 2 the counter only, any other nothing |
| `AesCtrElement.ParamValue` | elements/crypto/AES_CTR.clnp:47-50 | a signal parameter is the sum of its i-th byte times 256^i |
| `AesCtrElement.AesCtrElement.Run` | elements/crypto/AES_CTR.clnp:26-44 | handling a run of flits one after the other sends the run of the specification and leaves its counter |
| `AesCtrElement.RunCounterIs` | elements/crypto/AES_CTR.clnp:31-36 | after k flits the counter is block 2 k |
| `AesCtrElement.RunIsOneShot` | elements/crypto/AES_CTR.clnp:26-44 | over any run of flits the outputs joined are one application of the mode to the inputs joined |
| `AesCtrElement.RunBytes` | elements/crypto/AES_CTR.clnp:26-44 | byte j of output flit k is byte j of input flit k xor a byte of the enciphered counter block 2 k + j / 16 |
| `AesCtrElement.RunFrames` | elements/crypto/AES_CTR.clnp:38-41 | each output flit has the flags of its input and no padding count |
| `AesCtrElement.SeriesIsIdentity` | elements/crypto/AES_CTR.clnp:2-8 | two elements in series with one key and counter return every payload and frame, without the padding count |
| `Sha1.ChoiceAndMajority` | runtime/include/openclicknp/sha1.hpp:63-65 | the coded or-forms are the Ch and Maj of section 4.1.1 of FIPS 180-4 |
| `Sha1.Schedule` | runtime/include/openclicknp/sha1.hpp:40-49 | the eighty words of the message schedule |
| `Sha1.RunRounds` | runtime/include/openclicknp/sha1.hpp:50-69 | the loop computes the eighty rounds of section 6.1.2 of FIPS 180-4 |
| `Sha1.Compress` | runtime/include/openclicknp/sha1.hpp:36-71 | the five words become the specified compression of them with the block |
| `Sha1Recurrence.ConstantsAreRoots` | runtime/include/openclicknp/sha1.hpp:63-66 | the constants are the integer parts of 2^30 times the square roots of 2, 3, 5 and 10 |
| `Sha1Recurrence.ScheduleStarts` | runtime/include/openclicknp/sha1.hpp:41-46 | the first sixteen words are the block's bytes, big-endian |
| `Sha1Recurrence.ScheduleContinues` | runtime/include/openclicknp/sha1.hpp:47-49 | each later word is four earlier ones xored and rotated left by one, on bits |
| `Sha1Recurrence.RoundsAreTerms` | runtime/include/openclicknp/sha1.hpp:50-69 | after t rounds the five registers are consecutive terms of one sequence, whose recurrence is written with shifts, and, or, xor and sums |
| `Sha1Recurrence.CompressedIsSum` | runtime/include/openclicknp/sha1.hpp:70 | the new words are the old ones plus the last five terms, the last three rotated by 30 |
| `Sha1Recurrence.InitialWords` | runtime/include/openclicknp/sha1.hpp:80-83 | the initial words are the byte patterns of section 5.3.1 of FIPS 180-4 |
| `Sha1Recurrence.DigestNumbers` | runtime/include/openclicknp/sha1.hpp:112-117 | bytes 4 i to 4 i + 3 of a digest are the i-th word as a big-endian number |
| `Sha1Recurrence.PaddedIs` | runtime/include/openclicknp/sha1.hpp:102-111 | the padded message is the message, 0x80, fewer than 64 zeros and the bit length modulo 2^64 as a big-endian number, and fills its blocks |
| `Sha1Recurrence.DigestIs` | runtime/include/openclicknp/sha1.hpp:102-118 | the digest is the last of the hash values that start from the initial words and compress each block in turn |
| `Sha1Stream.PadZeros` | runtime/include/openclicknp/sha1.hpp:104-107 | the number of zero bytes is the least that leaves room for exactly the length field |
| `Sha1Stream.LengthFieldExact` | runtime/include/openclicknp/sha1.hpp:103-111 | the field holds the bit length if and only if the message is shorter than 2^61 bytes |
| `Sha1Stream.AppendWhole` | runtime/include/openclicknp/sha1.hpp:89-99 | bytes that complete a block compress it once and leave the buffer empty |
| `Sha1Stream.Ctx.Update` | runtime/include/openclicknp/sha1.hpp:87-100 | the context then stands for the message followed by the new bytes, whatever was buffered |
| `Sha1Stream.Ctx.Pad` | runtime/include/openclicknp/sha1.hpp:104-107 | the padding loop terminates, having appended 0x80 and the zeros of section 5.1.1 of FIPS 180-4 |
| `Sha1Stream.Ctx.FinalDigest` | runtime/include/openclicknp/sha1.hpp:102-118 | the digest of everything received: the left fold of compression over the padded message |
| `Sha1Stream.Hash` | runtime/include/openclicknp/sha1.hpp:120-122 | the digest of the data |
| `Sha1Stream.HashPieces` | runtime/include/openclicknp/sha1.hpp:87-118 | however the message is cut into updates, the digest is that of the whole |
| `ShaElements.Sha1Element.Handle` | elements/crypto/SHA1.clnp:22-44 | one flit continues or restarts the message, and the end flag outputs its digest |
| `ShaElements.OneDigestPerPacket` | elements/crypto/SHA1.clnp:22-44 | over any stream of packets, from any state, one digest per packet, of that packet's payloads joined |
| `ShaElements.KthDigest` | elements/crypto/SHA1.clnp:31-41 | output k carries the digest of packet k in its first twenty bytes and is a packet of its own |
| `ShaElements.OutFlitLayout` | elements/crypto/SHA1.clnp:34-38 | a digest flit is the digest, then zeros, with both flags set |
| `ShaElements.Sha1Block.Handle` | elements/crypto/SHA1_Block.clnp:30-60 | the words are the fold over the blocks received since the last start flag, and one is output per block |
| `ShaElements.BlocksInOrder` | elements/crypto/SHA1_Block.clnp:30-60 | a message cut into flits outputs the hash value after each of its blocks, whatever came before |
| `ShaElements.BlocksEndWithDigest` | elements/crypto/SHA1_Block.clnp:10-17 | fed the padded message, the last output is the digest of the message |
| `Lowering.LowerEdge` | compiler/src/ir/lower.cpp:54-104 | the two switches put the edge in its class's list and in no other, and number a host connection |
| `Lowering.LowerToBackend` | compiler/src/ir/lower.cpp:9-107 | the plan's lists are appended the user kernels, the signal table, and the edges of each class in order |
| `Lowering.Selected` | compiler/src/ir/lower.cpp:53-104 | a class's list holds exactly the edges of that class |
| `Lowering.ListsByKinds` | compiler/src/ir/lower.cpp:63-104 | which edges the tor, nic and stream lists hold, by the kinds of the kernels at the two ends |
| `Lowering.KeptInOrder` | compiler/src/ir/lower.cpp:54-104 | each list keeps the order of the edges |
| `Lowering.HostConnAt` | compiler/src/ir/lower.cpp:73-98 | an edge from the host gives its target's input, an edge to the host its source's output, with slot 32 plus the number of host edges before it |
| `Lowering.HostConnByKinds` | compiler/src/ir/lower.cpp:73-98 | every host connection is that of such an edge |
| `Lowering.KindIsFirst` | compiler/src/ir/eg_builder.cpp:37-40 | the kind of a name is that of the first kernel that bears it |
| `Lowering.UserKernelsAre` | compiler/src/ir/lower.cpp:20-50 | the plan's kernels are the kernels that are not special, in order |
| `Lowering.SignalTableIs` | compiler/src/ir/lower.cpp:46-49 | the signal table is the names of the host-controlled user kernels, in order |
| `Lowering.ClassesPartition` | compiler/src/ir/lower.cpp:53-104 | the six classes partition the edges, repetitions included |
| `Lowering.SlotsConsecutive` | compiler/src/ir/lower.cpp:52-98 | one slot per host edge, numbered without gaps from 32 |
| `Wiring.WirePorts` | compiler/src/backends/sw_emu/emit.cpp:172-216 | the four loops compute the port map of the plan |
| `Wiring.Compile` | compiler/src/backends/sw_emu/emit.cpp:172-216 | lowering followed by wiring computes the port map of the graph |
| `Wiring.PortStream` | compiler/src/backends/sw_emu/emit.cpp:180-216 | a user port has a stream exactly when a recorded edge uses it: that of the last connection that ends there in the family written last, host over nic over tor over plain |
| `Wiring.StreamFamily` | compiler/src/backends/sw_emu/emit.cpp:180-216 | a user port on a tor, nic or host stream ends an edge whose other end is a pseudo-element of that family and direction, and on a plain stream one whose other end is none |
| `Wiring.SharedIsJoined` | compiler/src/backends/sw_emu/emit.cpp:172-216 | two user ports on one stream are the two ends of an edge, for every graph |
| `Wiring.AllRealisedIff` | compiler/src/backends/sw_emu/emit.cpp:172-216 | where plain streams join user kernels only (see ResolvedStreamsJoinUsers), every edge between user kernels has both ends on one stream if and only if no port of such an edge is used by another edge |
| `Wiring.WiringIsTheGraph` | compiler/src/backends/sw_emu/emit.cpp:172-216 | two user ports share a stream exactly when an edge joins them, if no other recorded edge uses a port of an edge between user kernels ending at either |
| `Wiring.UsedOnceIsAlone` | compiler/src/backends/sw_emu/emit.cpp:180-216 | that condition holds for all ports when no user port is used by two edges, however often the ports of pseudo-elements are |
| `Wiring.CheckPortArity` | compiler/src/analyses/port_arity.cpp:8-38 | true exactly when every edge's ports are at least 1 and within the counts of the kernels found |
| `Wiring.ArityBounds` | compiler/src/analyses/port_arity.cpp:10-36 | the bound at each end is the port count of the first kernel of that name, and ports start at 1 |
| `Wiring.ResolvedStreamsJoinUsers` | compiler/src/ir/resolver.cpp:200-229 | with the port counts the resolver gives pseudo-elements, and no user kernel named like one of the four network ends, the arity check leaves only user kernels on plain streams |
| `PacketCodec.CountCovers` | runtime/src/pcap.cpp:80-99 | the number of flits is the length divided by 32 rounded up |
| `PacketCodec.PacketToFlits` | runtime/src/pcap.cpp:80-99 | the loop produces the packed flits, none for the empty packet |
| `PacketCodec.FlitsToPacket` | runtime/src/pcap.cpp:101-117 | the loop joins the valid bytes of any run of flits, malformed padding counts included |
| `PacketCodec.UnpackedBytes` | runtime/src/pcap.cpp:101-117 | for any run of flits, byte 32 i + j of the packet is byte j of flit i, and its length is 32 a flit less the clamped padding of a last flit with the end flag |
| `PacketCodec.PackedFrames` | runtime/src/pcap.cpp:85-94 | the start flag is on the first flit only, the end flag on the last only, and only the last is padded |
| `PacketCodec.PackedBytes` | runtime/src/pcap.cpp:84-89 | byte j of flit i is byte 32 i + j of the packet, and zero after its end |
| `PacketCodec.PacketRoundTrip` | runtime/src/pcap.cpp:80-117 | unpacking a packed packet returns it, for every byte sequence |
| `PacketCodec.PacketThroughCtr` | elements/crypto/AES_CTR.clnp:38-41 | through two cipher elements a packet returns followed by the zeros of its last flit, so unchanged if and only if 32 divides its length |
| `LimbFlits.DeliveredJob` | elements/crypto/RSA_ModExp_1024.clnp:154-166 | after its last flit a job's group is its framed result, whatever the groups of the other jobs hold |
| `LimbCodec.BytesToLimbs` | ssl_integration/openclicknp_engine.c:89-94 | the limbs hold the number the big-endian bytes hold, and nothing beyond them is written |
| `LimbCodec.LimbsToBytes` | ssl_integration/openclicknp_engine.c:100-104 | the bytes hold the number the limbs hold |
| `LimbCodec.LimbsOfIs` | ssl_integration/openclicknp_engine.c:83-96 | limbs with the value of the bytes are the ones the first loop writes, and only those |
| `LimbCodec.BytesOfIs` | ssl_integration/openclicknp_engine.c:98-106 | bytes with the value of the limbs are the ones the second loop writes, and only those |
| `LimbCodec.CodecRoundTrip` | ssl_integration/openclicknp_engine.c:83-106 | the two conversions are mutual inverses for every limb count |

## Left out

- ModExp.ModExp: says nothing about the value for an even modulus, for which the code has no Montgomery inverse.
- ModExp.ModExpConstTime: a functional result only; how long a run takes is not part of this model.
- BigInt.MontMul: determines the value for an odd modulus only; an output reference that aliases an operand is not captured, because numbers are values here.
- Crt.RsaCrtDecrypt: says nothing about the value for even moduli or a qInv that is no inverse.
- RsaMachine.RunComputesPowers: says how many flits a job with an even modulus takes, not what they hold; outputs are taken to be accepted; the wrapper writes without blocking and drops a flit when the stream is full.
- MontMulElement.KthProduct: says how many flits a product with an even modulus takes, not what they hold.
- Wiring.WiringIsTheGraph: leaves out unwired ports, which all share one null stream in the emulator.
- The stored copy of R^2 mod n in the RSA element, which nothing reads.
- The names of emitted streams, emitted C++ text and the rewriting of element bodies: the emitted language is not modelled.
- The text of warnings and errors and their source positions, except which kernel a cycle warning points at.
- Element groups and anonymous instances in the resolver: their rewritten end points name no emitted kernel.
- Platform, clock, pipeline and signal-address fields of the build plan, which lowering copies.
- Pcap file headers, OpenSSL's big numbers and engine hooks, XRT, slot bridges and host programs: input, output and foreign calls.
- Queueing and rate-limiting elements, stub elements and direct-mapped tables: their claims are single-branch ones.
