# Picocenter/Embassies: a verified model of the core

Picocenter runs many small guest processes on Embassies hosts. This project models, in Dafny, the parts of it that
have to be exactly right and are hardest to get right: the multi-precision arithmetic and the RSA operation built on it,
the AVL tree that every index of the system uses, the address-range allocator, the VMAC message authentication code,
domain names and the certificate chains that speak for them, and the worker's handling of picoprocesses.
`dafny verify dfyconfig.toml` checks all of it.

Each part is a program in the form of its source and a set of theorems about it.

| files | part |
|---|---|
| `Arith`, `NumberTheory` | congruences, powers, Euclid, Fermat |
| `Limbs`, `Bignum`, `Shift`, `Division` | numbers as mutable arrays of 32-bit limbs: comparison, addition, multiplication, shifts, long division |
| `Montgomery`, `Exponentiation` | Montgomery multiplication and sliding-window exponentiation |
| `IntegerInverse`, `CarryRun`, `ModInverse`, `LostInverse` | binary gcd and modular inverse: on integers, as a run over buffers that says when a carry is lost, on limbs, and two runs that lose one |
| `Rsa` | key derivation, the RSA context with its CRT path |
| `AvlShape`, `AvlOrder`, `Avl` | the rebalancing functions on trees, order, and the linked nodes on the heap that refine them |
| `Ranges`, `RangeIndex`, `Allocator` | range comparators, AVL trees of ranges and their searches, the coalescing allocator |
| `VmacArith`, `Vmac` | 64-bit register arithmetic, the key schedule, the incremental hash and the nonce cache |
| `Labels`, `DomainNames`, `Grammar`, `CertChains` | label lists, wire form, suffix tests, the syntax of names in text, label verification |
| `Worker` | the worker's events as atomic steps, and runs of them |
| `Common` | shared definitions |

## What is proved

*Arithmetic.* `mpi_exp_mod` returns `A^E mod N` for every odd `N` and every `A` that is not negative, through the window
state machine, the partial table of powers, the left-over bits and the cached `R^2`. `mpi_div_mpi` divides exactly although
its trial digit is only estimated: after the three-limb test the digit is at most one too large, whatever the
normalisation. The algorithm of `mpi_inv_mod` on integers gives the inverse in [0,N) for
every N > 1 exactly when A and N are coprime, and a key derived with it from two primes is a key exactly when the exponent is odd.
On limbs, `mpi_inv_mod` gives exactly what a run over buffers gives, a function of A and N; unless that run loses a carry
(`LosesCarry`, decided by A and N too) it gives the same inverse as on integers. The CRT path of `rsa_private` equals `T^D mod N`,
the public operation undoes it, and a key derived on limbs from two primes and an odd exponent is ready for both unless one of its
two inverses loses a carry.

*Index.* On the heap, with parent links and stored balance tags, insertion and removal keep the tree an exact AVL tree and
refine insertion into and deletion from a sorted sequence. The case in which a single rotation sets wrong tags, which
`gotOneShorter` repairs, is one of those covered. The four searches are exact and `foreach` visits each element once, in order.

*Allocator.* The three indexes are AVL trees searched with the wrapping comparators. Over every sequence of operations the
free indexes agree, free ranges never touch, free and allocated space together are the donated space, allocation succeeds
exactly when a run is long enough, and an owner is destroyed exactly when its last address is freed.

*Authentication and names.* Chunking and the nonce cache of VMAC cannot be observed, two nonces share a pad only if the cipher
repeats a word, and a cipher has one key schedule. A name is read back from what it was
written to, and what is read is reproduced byte for byte exactly under a stated condition. The reader stays inside its buffer
exactly under another one. Texts below 255 characters are accepted exactly if they follow the grammar, and two parsed names are
equal exactly if they differ in the case of letters only. Suffix and equality tests are exact in the labels that a C string shows. Every owner along a verified
chain passes the suffix test for the anchor, and lies under the anchor's name if no label has a dot or a null.

*Worker.* The residency limits, the disjointness of the hot and warm sets, the link between monitors and states and the
hub's knowledge of the status hold after every event, and no wake-up is lost. The youngest picos stay resident, and the worker
is overloaded exactly if it has been overfull and not below its threshold since. Which events let a pico run without being hot,
or lose a pico that runs, is stated exactly.

## Where the code does not do what it promises

Each of these is stated by theorems about the code as it is: the exact condition, unless the text says otherwise, and an
input or a run where the condition alone does not show one.

- The carry loop of `mpi_add_abs` does not move on to the next limb: a carry that meets a full limb which is not the last one is
  added to that limb again (`CarryLost`, `CarryExample`). The RSA operations cannot reach this case (`NoCarryFromSmaller`). A number
  added to itself in place is doubled limb by limb without carries (`AddSelf`, `DoubledExact`, `SelfExample`).
- `mpi_inv_mod` can reach it: the inverse of 2^63+2 modulo 2^64+5 comes out as 2^63+2^31+3, which is no inverse (`WrongRun`,
  `WrongInverse`). If A and N are coprime, the result is the inverse whenever the run loses no carry (`CodeExact`), and with a
  modulus below 2^56 it loses none (`SmallModulus`). This is one direction: a lost carry can be harmless, as for 2^64 modulo 2^64+1
  (`HarmlessLoss`).
- `mpi_cmp_mpi` returns the wrong sign exactly when the left number has fewer significant limbs than the right one and the
  signs differ (`CmpMisleads`, `CmpExample`); `mpi_cmp_int` is wrong for a zero of the other sign (`NegativeZeroExample`).
- `mpi_div_mpi` gives wrong signs or values when a result is stored over an operand, exactly as `DivisionFails` says
  (`DivMpi`, `RemainderExample`). `mpi_mod_mpi` in place is wrong for a negative dividend unless its double is a
  multiple of the modulus, and of a negative zero it makes `-B` (`ModMpi`, `ModExample`, `ModZeroExample`).
- `mpi_exp_mod` drops the sign of a negative base that has as many limbs as the modulus, which matters for odd exponents
  (`BasePower`, `NegativeBaseExample`).
- `mpi_gcd` drops the powers of two that both arguments share (`BothEvenExample`), so an even exponent passes the test of
  `rsa_gen_key` exactly when it has no odd divisor in common with (p-1)(q-1), and then there is no key (`KeyNumbers`,
  `EvenExponentExample`). On a nonzero multiple of a power of two N, 1 included, the gcd test of `mpi_inv_mod` passes and its
  first halving loop never ends (`ZeroResidue`, `Stuck`, `StuckExample`). A = 0 is refused, unless N is 1.
- The range comparators store an unsigned difference in a signed word. They order ranges exactly while the differences fit;
  beyond that they are not even transitive (`ComparatorCycle`). A free that starts more than 2^31 past the root of the allocated
  index frees every allocation instead (`FreeRange`, `FreedElsewhere`), and a request larger than the root of the free index by
  more than 2^31 stops at an assertion instead of failing (`AllocateRange`, `LargeRequest`).
- `create_empty_range` is documented to check the allocated ranges too; the code checks the free ones only, so the space stays
  disjoint if and only if the caller's range overlaps no allocation (`CreateEmptyRange`, `DonatedTwice`).
- The AVL checker compares a node with its children only (`LocalIsNotSorted`).
- The wire constructor of a domain name checks the size of the name so far and not the label it is about to copy: it writes
  beyond its 255 bytes exactly if a label that starts within them does not end within them (`ReadWire`, `OverrunExample`).
- A dot or a null inside a label is taken for a boundary or an end, so different names pass the suffix and equality tests;
  for labels without either the tests are exact (`Suffix`, `SuffixExample`, `Equal`, `EqualExample`, `NullExample`).
- The wire constructor keeps every byte of a label. `serialize` folds upper-case letters, stops at a null, takes a dot for a
  boundary, and writes a zero for a space without counting it. So a name that is read and written again is reproduced exactly if no
  label has a dot, a null, a space or an upper-case letter (`ReadThenWrite`, `UpperCaseExample`, `SpaceExample`, `NullWritten`,
  `SpaceAlone`).
- So a certificate chain from "com" is accepted for the owner "a.com" in one label, which does not lie under it (`DottedOwner`).
- `parse` keeps the length of the text in a byte. At 255 its copy loop writes beyond the name's 255 bytes and does not stop, since its
  counter is a byte too. A longer text is cut to its length modulo 256 without a terminating null, or refused if that is 0
  (`ParseText`).
- The syntax check keeps the length of a label in a byte, in which its failure value is 255. A text of 255 characters without any
  label is accepted (`BadAccepted`), and a lone last character that is no letter makes it read beyond the text (`CheckSubdomain`,
  `Parse`). Below 255 characters it is exact otherwise.
- Before the first tag, VMAC takes the pad of the nonce that marks an empty cache from unwritten memory (`Mac`).
- The worker never wakes a pico whose id is 0 (`Wake`). A pico that is woken during its checkpoint and napped again before the
  checkpoint ends resumes without being hot, so more picos can run than the hot limit allows (`MonitorExit`, `Overcommitted`).
  The exit of a killed pico's monitor removes the pico that was started under its id (`MonitorExit`, `LostAtExit`), and the end of
  an upload removes a pico that runs again (`UploadDone`, `LostAtUpload`). The hub is told of a release even when a pending
  wake-up keeps the pico (`UploadDone`).

## Model

| member | source | states |
|---|---|---|
| Limbs.MulAddCore | common/crypto/bignum_mul.h:672-688 | low and high word of the step are exactly s*b+c+d: two wrapping additions lose nothing |
| Limbs.ValSig | common/crypto/bignum.cpp:608-633 | the significant limbs determine the magnitude and bound it from both sides |
| Limbs.SigUnique | common/crypto/bignum.cpp:608-633 | equal magnitudes have equal significant limbs |
| Limbs.ValOrder | common/crypto/bignum.cpp:608-633 | the highest differing limb decides the order of magnitudes |
| Bignum.Grow | common/crypto/bignum.cpp:106-129 | limbs are kept, new ones are zero, the magnitude is unchanged |
| Bignum.Copy | common/crypto/bignum.cpp:134-156 | sign and magnitude become those of the source, also when both are the same object |
| Bignum.Lset | common/crypto/bignum.cpp:173-186 | the number becomes z |
| Bignum.CmpLimbs | common/crypto/bignum.cpp:626-630 | the scan from the top limb gives the sign of the difference |
| Bignum.CmpAbs | common/crypto/bignum.cpp:608-633 | the sign of the difference of the magnitudes, for all limb counts |
| Bignum.CmpMpi | common/crypto/bignum.cpp:638-666 | the sign of the difference if and only if the misleading case is excluded, and its negation in that case |
| Bignum.CmpExample | common/crypto/bignum.cpp:638-666 | 5 compares below -2^32, and -2^32 below 5 |
| Bignum.CmpInt | common/crypto/bignum.cpp:671-682 | right if and only if the number is not a zero of the other sign, and otherwise the opposite |
| Bignum.NegativeZeroExample | common/crypto/bignum.cpp:671-682 | a negative zero compares above every positive number |
| Bignum.SubHlp | common/crypto/bignum.cpp:733-749 | subtracts in place; the borrow never runs past the end |
| Bignum.SubAbs | common/crypto/bignum.cpp:754-786 | \|A\|-\|B\| with the sign of A, or an error and no change exactly when \|A\| < \|B\|, under every aliasing |
| Bignum.CarryFirst | common/crypto/bignum.cpp:714-723 | what the first pass of the final carry loop leaves, growing by a limb if needed |
| Bignum.CarrySecond | common/crypto/bignum.cpp:714-723 | what the second pass leaves: the carry goes into a new limb, or into the same limb again |
| Bignum.NoLoss | common/crypto/bignum.cpp:714-723 | no carry is lost in a buffer that is small against the addend |
| Bignum.AddInto | common/crypto/bignum.cpp:700-723 | the sum, less what a lost carry takes from it |
| Bignum.CarryExample | common/crypto/bignum.cpp:714-723 | 2^64-1 plus 1 is 2^32 in a buffer of three limbs |
| Bignum.DoubledExact | common/crypto/bignum.cpp:708-712 | doubling limb by limb is exact if and only if every limb is below 2^31 |
| Bignum.AddSelf | common/crypto/bignum.cpp:706-723 | one object in all three places: every limb is doubled modulo 2^32 |
| Bignum.SelfExample | common/crypto/bignum.cpp:687-728 | 2^31 added to itself in place is 0 |
| Bignum.AddAbs | common/crypto/bignum.cpp:687-728 | \|A\|+\|B\| if and only if no carry is lost, and what comes out otherwise, under every aliasing |
| Bignum.AddMpi | common/crypto/bignum.cpp:791-817 | A+B if and only if equal signs do not lose a carry; the sign of the result, and its magnitude if one is lost |
| Bignum.SubMpi | common/crypto/bignum.cpp:822-848 | A-B if and only if different signs do not lose a carry; the sign of the result, and its magnitude if one is lost |
| Bignum.MulHlp | common/crypto/bignum.cpp:885-944 | adds b times a limb string at an offset; the final carry loop stays inside the buffer |
| Bignum.MulLimbs | common/crypto/bignum.cpp:949-980 | schoolbook multiplication of two limb strings |
| Bignum.MulMpi | common/crypto/bignum.cpp:949-980 | product of magnitudes and of signs, under every aliasing |
| Bignum.MulInt | common/crypto/bignum.cpp:985-996 | product with one limb |
| Shift.LimbBits | common/crypto/bignum.cpp:206-219 | the bit length of a limb |
| Shift.Msb | common/crypto/bignum.cpp:206-219 | the bit length of the magnitude |
| Shift.ShiftLimbsUp | common/crypto/bignum.cpp:537-544 | whole-limb move in place, high limbs first |
| Shift.ShiftL | common/crypto/bignum.cpp:519-563 | multiplication by 2^count, and the exact number of limbs afterwards |
| Shift.ShiftLimbsDown | common/crypto/bignum.cpp:579-586 | whole-limb move downwards in place |
| Shift.ShiftR | common/crypto/bignum.cpp:568-603 | division by 2^count, rounded down |
| Division.DigitFits | common/crypto/bignum.cpp:1047-1121 | the true digit passes every test against leading parts of dividend and divisor |
| Division.DigitClose | common/crypto/bignum.cpp:1047-1121 | a digit that passes a test with a leading part of at least one limb is at most one too large |
| Division.DigitTest | common/crypto/bignum.cpp:1106-1121 | the three-limb test never rejects the true digit and leaves at most one too much |
| Division.FirstGuess | common/crypto/bignum.cpp:1049-1062 | the first guess is the quotient of the leading limbs, or the largest limb, and never below the true digit |
| Division.TrialDigit | common/crypto/bignum.cpp:1049-1121 | the digit left by the correction loop is the true one or one more |
| Division.SubtractDigit | common/crypto/bignum.cpp:1123-1133 | with at most one add-back the digit is the true quotient digit and the rest the true remainder |
| Division.DivStep | common/crypto/bignum.cpp:1123-1133 | quotient times divisor plus rest is unchanged by one digit |
| Division.DivLoop | common/crypto/bignum.cpp:1047-1134 | the invariant of the digit loop from the top digit to the last |
| Division.SubtractRepeatedly | common/crypto/bignum.cpp:1040-1044 | the leading digit by repeated subtraction |
| Division.LeadingDigit | common/crypto/bignum.cpp:1036-1045 | the shifted divisor is subtracted and restored; the loop invariant holds |
| Division.Normalise | common/crypto/bignum.cpp:1027-1034 | both numbers are multiplied by the power of two that leaves 31 bits in the top limb of the divisor |
| Division.DivSetup | common/crypto/bignum.cpp:1018-1034 | working copies whose quotient is the wanted one |
| Division.DivCore | common/crypto/bignum.cpp:1018-1144 | quotient and scaled remainder of the magnitudes |
| Division.DivMpi | common/crypto/bignum.cpp:1001-1157 | A = Q*B + R with \|R\| < \|B\| if and only if no result is stored over an operand whose sign or value is still needed; both magnitudes, the signs they are given, and the error for a zero divisor, under every aliasing |
| Division.DivisionIdentity | common/crypto/bignum.cpp:1001-1157 | A = Q*B + R with \|R\| < \|B\| if and only if no result was stored over an operand whose sign or value was still needed |
| Division.RemainderExample | common/crypto/bignum.cpp:1136-1151 | -7 divided by 5 in place leaves 2 |
| Division.Reduce | common/crypto/bignum.cpp:1188-1192 | for a positive modulus the two correction loops bring a signed remainder into range, or to -B for a negative zero |
| Division.SignedMod | common/crypto/bignum.cpp:1182-1197 | the signed remainder with one correction is the mathematical one |
| Division.ModOpposite | common/crypto/bignum.cpp:1182-1197 | a number and its opposite have the same residue exactly if twice the number has residue 0 |
| Division.ModMpi | common/crypto/bignum.cpp:1182-1197 | for a positive modulus: A mod B if and only if A is no negative zero and no negative dividend is reduced in place, unless its double is a multiple of B |
| Division.ModExample | common/crypto/bignum.cpp:1182-1197 | -7 modulo 5 in place is 2 |
| Division.ModZeroExample | common/crypto/bignum.cpp:1182-1197 | a negative zero modulo 5 is -5 |
| Montgomery.SeedCorrect | common/crypto/bignum.cpp:1256-1257 | the seed is an inverse modulo 16 for every odd limb |
| Montgomery.NewtonStep | common/crypto/bignum.cpp:1258-1262 | each iteration squares the modulus of correctness |
| Montgomery.MontgInit | common/crypto/bignum.cpp:1252-1265 | N[0]*mm = -1 modulo 2^32 for every odd limb |
| Montgomery.LowLimbClears | common/crypto/bignum.cpp:1286-1290 | the chosen digit makes the lowest limb zero |
| Montgomery.MontBound | common/crypto/bignum.cpp:1281-1293 | the accumulator stays below B+N at every step |
| Montgomery.MontStep | common/crypto/bignum.cpp:1281-1293 | one round keeps the invariant that links accumulator, consumed digits and multiples of N |
| Montgomery.MontRound | common/crypto/bignum.cpp:1286-1290 | both inner products are added without leaving the buffer |
| Montgomery.MontLoop | common/crypto/bignum.cpp:1275-1293 | the invariant after all digits |
| Montgomery.MontMul | common/crypto/bignum.cpp:1270-1302 | A*B/R mod N, fully reduced, for every B up to N |
| Montgomery.DummyFits | common/crypto/bignum.cpp:1297-1301 | the subtraction that only evens out the timing never borrows past the end of T |
| Exponentiation.CancelPow2 | common/crypto/bignum.cpp:1321-1493 | powers of two can be cancelled modulo an odd number |
| Exponentiation.ResidueProduct | common/crypto/bignum.cpp:1270-1302 | Montgomery multiplication of residues is multiplication of what they stand for |
| Exponentiation.MontRed | common/crypto/bignum.cpp:1307-1316 | leaves Montgomery form |
| Exponentiation.WindowSize | common/crypto/bignum.cpp:1338-1341 | the window has between 1 and 6 bits |
| Exponentiation.PrepareRR | common/crypto/bignum.cpp:1348-1361 | R^2 mod N, from the cache or computed into it; a filled cache is kept, an empty one filled |
| Exponentiation.TakeBase | common/crypto/bignum.cpp:1366-1368 | the base before Montgomery form: A, its residue, or the magnitude of a negative A with as many limbs as N |
| Exponentiation.ToMont | common/crypto/bignum.cpp:1363-1370 | that base enters Montgomery form |
| Exponentiation.BasePower | common/crypto/bignum.cpp:1366-1368 | its power is the power of A if and only if no odd power of a negative A is taken without its sign |
| Exponentiation.MontOne | common/crypto/bignum.cpp:1372-1376 | one in Montgomery form |
| Exponentiation.FillTable | common/crypto/bignum.cpp:1378-1401 | exactly the entries 2^(w-1) to 2^w - 1 hold the powers of A |
| Exponentiation.PrefixStep | common/crypto/bignum.cpp:1409-1421 | reading one more bit doubles the prefix of the exponent and adds the bit |
| Exponentiation.WindowPush | common/crypto/bignum.cpp:1438-1462 | one bit more in the window, and what the window is worth when it is full |
| Exponentiation.CloseWindow | common/crypto/bignum.cpp:1446-1462 | only filled table entries are used; the exponent so far absorbs the window |
| Exponentiation.ScanExponent | common/crypto/bignum.cpp:1403-1463 | after all bits, the accumulator is the power for all bits but those pending in the window |
| Exponentiation.FinishWindow | common/crypto/bignum.cpp:1465-1476 | the pending bits are worked off one by one |
| Exponentiation.ExpMod | common/crypto/bignum.cpp:1321-1493 | A^E mod N for every odd positive N if and only if the sign of A is not lost; the value in any case, the error for other N, the cache filled and kept right |
| Exponentiation.NegativeBaseExample | common/crypto/bignum.cpp:1366-1368 | -4 to the power 1 modulo 5 is 4 |
| NumberTheory.Euclid | common/crypto/rsa.cpp:96-105 | a prime divides a factor of what it divides |
| NumberTheory.Fermat | common/crypto/rsa.cpp:233-257 | a^p = a modulo p |
| NumberTheory.FermatExponent | common/crypto/rsa.cpp:233-257 | exponents may be reduced modulo p-1 |
| IntegerInverse.BinaryGcd | common/crypto/bignum.cpp:1500-1537 | on integers: the odd part of the greatest common divisor; the divisor itself if and only if not both are even |
| IntegerInverse.OddGcdIsGcd | common/crypto/bignum.cpp:1500-1537 | when dropping the twos is harmless, both directions |
| IntegerInverse.BothEvenExample | common/crypto/bignum.cpp:1500-1537 | 4 and 6 give 1 |
| IntegerInverse.HalvedCoefficients | common/crypto/bignum.cpp:1573-1599 | every coefficient that is halved is even |
| IntegerInverse.HalvedExact | common/crypto/bignum.cpp:1573-1599 | one halving with its correction keeps the combination |
| IntegerInverse.HalveWithCoefficients | common/crypto/bignum.cpp:1573-1599 | the halving loop ends at an odd number, keeps the odd common divisors, and keeps the combination unless both moduli are even |
| IntegerInverse.ExtendedEuclid | common/crypto/bignum.cpp:1561-1614 | the loop ends with a combination of A mod N and N equal to 1 if they are coprime and not both even |
| IntegerInverse.MultipleOf | common/crypto/bignum.cpp:1553-1559 | a multiple of N has no odd divisor in common with N if and only if N is a power of two |
| IntegerInverse.ZeroResidue | common/crypto/bignum.cpp:1553-1561 | the extended loop is entered with residue 0 if and only if N is 1 or A is a nonzero multiple of a power of two N |
| IntegerInverse.InvMod | common/crypto/bignum.cpp:1542-1630 | on integers, for every N: success exactly when there is no odd common divisor, exactly when the gcd is 1 if not both are even; X is in [0,N) and an inverse if and only if not both are even |
| IntegerInverse.InverseUnique | common/crypto/bignum.cpp:1616-1620 | the range of the residues holds one inverse at most |
| CarryRun.LossyIs | common/crypto/bignum.cpp:714-723 | sign, magnitude and limb count of a buffer decide whether an addition loses its carry |
| CarryRun.PlusExact | common/crypto/bignum.cpp:791-848 | a step of the run is exact if and only if it loses no carry |
| CarryRun.HalveAllExact | common/crypto/bignum.cpp:1573-1599 | a halving loop that loses no carry keeps the combination, and always the odd common divisors |
| CarryRun.LessExact | common/crypto/bignum.cpp:1601-1612 | a difference of two lines that loses no carry keeps the combination |
| CarryRun.RunExact | common/crypto/bignum.cpp:1571-1614 | a whole run without loss ends with the combination equal to 1, for coprime arguments that are not both even |
| CarryRun.CorrectedInverse | common/crypto/bignum.cpp:1616-1620 | the correction loops bring an inverse into the range of the residues |
| CarryRun.CodeExact | common/crypto/bignum.cpp:1542-1630 | unless the run loses a carry, what the code returns is the inverse in [0,N) |
| CarryRun.TurnsNext | common/crypto/bignum.cpp:1571-1614 | the product of the two lines halves at every turn but the first |
| CarryRun.FewTurns | common/crypto/bignum.cpp:1571-1614 | a modulus below 2^56 takes at most 112 turns |
| CarryRun.SmallModulus | common/crypto/bignum.cpp:1542-1630 | with a modulus below 2^56, of one or two limbs, no run loses a carry |
| ModInverse.StripTwos | common/crypto/bignum.cpp:1515-1516 | the shifting loop leaves the odd part and keeps all odd common divisors |
| ModInverse.GcdTurn | common/crypto/bignum.cpp:1513-1528 | one turn keeps the odd common divisors and shrinks the sum |
| ModInverse.GcdMpi | common/crypto/bignum.cpp:1500-1537 | on limbs: the odd part of the greatest common divisor, the divisor itself if and only if not both are even, and B if A is 0 |
| ModInverse.AddTo | common/crypto/bignum.cpp:791-817 | the buffer after an addition in place is the one of the run: sign, magnitude and limb count |
| ModInverse.SubFrom | common/crypto/bignum.cpp:822-848 | the same for a subtraction |
| ModInverse.Row.HalveTurn | common/crypto/bignum.cpp:1573-1585 | one turn of the halving loop on limbs is one of the run |
| ModInverse.Row.Halve | common/crypto/bignum.cpp:1573-1599 | the halving loop on limbs is the one of the run |
| ModInverse.Row.Subtract | common/crypto/bignum.cpp:1601-1612 | one line less the other is the one of the run |
| ModInverse.EuclidTurn | common/crypto/bignum.cpp:1571-1614 | one turn of the extended loop on limbs is one of the run |
| ModInverse.EuclidLoop | common/crypto/bignum.cpp:1571-1614 | the loop ends where the run ends |
| ModInverse.ExtendedLoop | common/crypto/bignum.cpp:1561-1614 | from the residue to the coefficient of the run for A and N |
| ModInverse.Raise | common/crypto/bignum.cpp:1616-1617 | the first correction loop ends at a number that is not negative, with the same corrected value |
| ModInverse.Lower | common/crypto/bignum.cpp:1619-1620 | the second one ends at the corrected value |
| ModInverse.Unit | common/crypto/bignum.cpp:1553-1559 | the gcd test accepts exactly what has no odd divisor in common with N, and 0 for N = 1 only |
| ModInverse.InvMpi | common/crypto/bignum.cpp:1542-1630 | on limbs, whenever the loops end: success as on integers, and the value of the run; unless the run loses a carry, an inverse if and only if not both are even, and then in [0,N) |
| ModInverse.Agreement | common/crypto/bignum.cpp:1542-1630 | limbs and integers return the same code and, unless the run loses a carry, the same inverse |
| ModInverse.Stuck | common/crypto/bignum.cpp:1573-1585 | on a nonzero multiple of a power of two the gcd test passes, and after any number of turns from the residue 0 the halving loop takes another |
| ModInverse.StuckExample | common/crypto/bignum.cpp:1542-1630 | the inverse of 2 modulo 2 |
| LostInverse.LostHere | common/crypto/bignum.cpp:687-728 | 2^64-1 in three limbs plus 2 loses its carry |
| LostInverse.HalveFirst | common/crypto/bignum.cpp:1573-1585 | sixty halvings of the first line of the run |
| LostInverse.HalveSecond | common/crypto/bignum.cpp:1587-1599 | sixty halvings fill the second line's coefficient with ones |
| LostInverse.WrongRun | common/crypto/bignum.cpp:1542-1630 | the run for 2^63+2 modulo 2^64+5 loses a carry and gives a number that is no inverse although one exists |
| LostInverse.WrongInverse | common/crypto/bignum.cpp:1542-1630 | `mpi_inv_mod` on these limbs succeeds with that number |
| LostInverse.HarmlessLoss | common/crypto/bignum.cpp:1542-1630 | the run for 2^64 modulo 2^64+1 loses a carry and gives the inverse |
| Rsa.ShortExponent | common/crypto/rsa.cpp:96-105 | D mod (P-1) is as good an exponent as D modulo P |
| Rsa.Recombine | common/crypto/rsa.cpp:245-256 | the recombined value has both residues and is below P*Q |
| Rsa.CrtIsDirect | common/crypto/rsa.cpp:233-257 | the CRT value equals T^D mod N |
| Rsa.ExponentsCancel | common/crypto/rsa.cpp:182-270 | T^(E*D) mod N is T for every T below N, multiples of the primes included |
| Rsa.RoundTrip | common/crypto/rsa.cpp:182-270 | the two operations undo each other in both orders |
| Rsa.NoCarryFromSmaller | common/crypto/rsa.cpp:252-256 | the final addition is never one that loses its carry |
| Rsa.CrtQuotient | common/crypto/rsa.cpp:245-250 | (T1-T2)*QP mod P, a negative difference included |
| Rsa.CrtSum | common/crypto/rsa.cpp:252-256 | T2 + T*Q, exactly |
| Rsa.Context.Private | common/crypto/rsa.cpp:216-270 | T^D mod N, or the error exactly for T not below N; key and caches stay valid |
| Rsa.Context.Public | common/crypto/rsa.cpp:182-211 | T^E mod N, or the error exactly for T not below N |
| Rsa.Context.PrivateThenPublic | common/crypto/rsa.cpp:182-270 | the input comes back, for every input below N |
| Rsa.KeyNumbers | common/crypto/rsa.cpp:85-105 | on integers, for all primes: accepts exactly the exponents without odd common divisor, and the numbers are a key if and only if the exponent is odd |
| Rsa.Exponents | common/crypto/rsa.cpp:92-104 | on limbs: the gcd test, the value of D, and its two residues; D is the inverse unless a carry is lost |
| Rsa.InverseOfPrime | common/crypto/rsa.cpp:105 | the value of QP, which is Q^-1 mod P unless a carry is lost |
| Rsa.SmallKey | common/crypto/rsa.cpp:85-105 | no inverse of a key loses a carry if P and (P-1)(Q-1) are below 2^56 |
| Rsa.DeriveKey | common/crypto/rsa.cpp:85-105 | on limbs: accepts as on integers; all numbers of the key in every case; unless one of the two inverses loses a carry, they are a key if and only if the exponent is odd |
| Rsa.EvenExponentExample | common/crypto/rsa.cpp:92-102 | the exponent 4 passes for the primes 3 and 7 and has no inverse |
| Rsa.NewKey | common/crypto/rsa.cpp:85-107 | a derived key with an odd exponent satisfies everything the two operations require, unless one of its inverses loses a carry |
| AvlShape.PlugAvl | common/utils/avl2logic.h:349-399 | a balanced subtree of the right depth in a balanced surrounding is balanced |
| AvlShape.SingleInorder | common/utils/avl2logic.h:572-633 | a single rotation keeps the order |
| AvlShape.DoubleInorder | common/utils/avl2logic.h:635-744 | a double rotation keeps the order |
| AvlShape.SingleAfterInsert | common/utils/avl2logic.h:521-530 | after an insertion a single rotation restores balance, tags and the old depth |
| AvlShape.DoubleRestores | common/utils/avl2logic.h:635-744 | a double rotation restores balance with all three tag cases |
| AvlShape.RegrownCorrect | common/utils/avl2logic.h:492-569 | one step of the walk after an insertion: balanced, same order, and whether the depth grew |
| AvlShape.AddedCorrect | common/utils/avl2logic.h:492-569 | the whole walk after an insertion |
| AvlShape.RotateAfterDelete | common/utils/avl2logic.h:923-945 | the two single-rotation cases after a deletion, the one with repaired tags included |
| AvlShape.ShrunkCorrect | common/utils/avl2logic.h:880-960 | one step of the walk after a deletion |
| AvlShape.ShorterCorrect | common/utils/avl2logic.h:880-960 | the whole walk after a deletion |
| AvlShape.InsertAtCorrect | common/utils/avl2logic.h:401-490 | insertion at a free position: balanced, the node between what is before and after |
| AvlShape.OnlyChildIsLeaf | common/utils/avl2logic.h:756-787 | a node without one child is a leaf or has a leaf as its other child, with the tags that the code asserts |
| AvlShape.RemoveAtCorrect | common/utils/avl2logic.h:746-878 | deletion of any node: balanced, everything else in order |
| AvlShape.SuccessorInorder | common/utils/avl2logic.h:802-870 | putting the successor in the place of the removed node loses only that node |
| AvlShape.DepthBound | common/utils/avl2logic.h:349-399 | a tree of depth h has at least Fib(h+2)-1 nodes |
| AvlOrder.InsertedSorted | common/utils/avl2.h:573-592 | sorted insertion keeps order and elements; deleting the key again gives the old sequence |
| AvlOrder.SeatSplits | common/utils/avl2logic.h:425-473 | the descent ends where smaller keys are before and larger ones after |
| AvlOrder.InsertCorrect | common/utils/avl2logic.h:401-490 | the tree after an insertion is balanced and holds the sorted insertion |
| AvlOrder.RemoveCorrect | common/utils/avl2logic.h:746-878 | the tree after a deletion is balanced and holds the sequence without the key |
| AvlOrder.SortedIsLocal | common/utils/avl2logic.h:349-399 | a sorted tree passes the checker's order test |
| AvlOrder.LocalIsNotSorted | common/utils/avl2logic.h:349-399 | a balanced tree that the checker accepts although it is not sorted |
| Avl.FindFirstLessThan | common/utils/avl2logic.h:156-188 | the greatest smaller key, null exactly when there is none |
| Avl.FindFirstLessThanOrEqualTo | common/utils/avl2logic.h:206-243 | the greatest key not above, null exactly when there is none |
| Avl.FindFirstGreaterThan | common/utils/avl2logic.h:262-292 | the least greater key, null exactly when there is none |
| Avl.FindFirstGreaterThanOrEqualTo | common/utils/avl2logic.h:311-347 | the least key not below, null exactly when there is none |
| Avl.CheckDepth | common/utils/avl2logic.h:349-399 | accepts exactly balanced trees that are locally in order and whose parent links match; returns their depth and size |
| Avl.AvlTree.SingleRotate | common/utils/avl2logic.h:572-633 | the links of the heap after a single rotation are those of the rotated tree; the rotation is counted |
| Avl.AvlTree.DoubleRotate | common/utils/avl2logic.h:635-744 | the same for a double rotation |
| Avl.AvlTree.Regrow | common/utils/avl2logic.h:492-569 | one node of the walk after an insertion, on the heap |
| Avl.AvlTree.AddedOn | common/utils/avl2logic.h:492-569 | rightAdded and leftAdded: the heap is the tree after the whole walk |
| Avl.AvlTree.Retag | common/utils/avl2logic.h:937-945 | the tags that the rotation got wrong are set again |
| Avl.AvlTree.Shrink | common/utils/avl2logic.h:880-945 | one node of the walk after a deletion, on the heap |
| Avl.AvlTree.GotOneShorter | common/utils/avl2logic.h:880-960 | the heap is the tree after the whole walk |
| Avl.AvlTree.RemoveSingle | common/utils/avl2logic.h:756-801 | a node without one of its children is bypassed |
| Avl.AvlTree.DetachSuccessor | common/utils/avl2logic.h:816-824 | a distant successor leaves its place to its right child |
| Avl.AvlTree.TakeOver | common/utils/avl2logic.h:826-842 | a distant successor takes all links and the tag of the removed node |
| Avl.AvlTree.TakeOverNear | common/utils/avl2logic.h:843-865 | a successor that is the right child moves up |
| Avl.AvlTree.PromoteSuccessor | common/utils/avl2logic.h:814-866 | both cases, and the node and side that became less deep |
| Avl.AvlTree.RemoveDouble | common/utils/avl2logic.h:802-870 | removal of a node with two children |
| Avl.AvlTree.RemoveNode | common/utils/avl2logic.h:746-878 | removal of any node; its own links and tag are cleared; the deletion is counted |
| Avl.AvlTree.Descend | common/utils/avl2logic.h:425-473 | the node below which the key belongs |
| Avl.AvlTree.HangLeaf | common/utils/avl2logic.h:475-489 | the new leaf is linked in on the right side |
| Avl.AvlTree.InsertNode | common/utils/avl2logic.h:401-490 | the heap is the tree after insertion; the insertion is counted |
| Avl.AvlTree.Insert | common/utils/avl2.h:573-592 | contents become the sorted insertion; every invariant of the tree is kept |
| Avl.AvlTree.RemoveKey | common/utils/avl2.h:610-628 | contents lose exactly the key; null exactly when it was absent |
| Avl.AvlTree.RemoveElement | common/utils/avl2.h:594-608 | contents lose exactly the key of a present element |
| Avl.AvlTree.Lookup | common/utils/avl2.h:240-253 | the element with the key, null exactly when there is none |
| Avl.AvlTree.Less | common/utils/avl2.h:269-292 | exact predecessor in the contents |
| Avl.AvlTree.LessOrEqual | common/utils/avl2.h:308-331 | exact predecessor or equal |
| Avl.AvlTree.Greater | common/utils/avl2.h:388-411 | exact successor in the contents |
| Avl.AvlTree.GreaterOrEqual | common/utils/avl2.h:428-451 | exact successor or equal |
| Avl.AvlTree.FindMin | common/utils/avl2.h:481-501 | the first element, null exactly for an empty tree |
| Avl.AvlTree.FindMax | common/utils/avl2.h:503-521 | the last element, null exactly for an empty tree |
| Avl.AvlTree.Foreach | common/utils/avl2.h:334-341 | every element once, in ascending order |
| Avl.AvlTree.Size | common/utils/avl2.h:467-479 | insertions minus deletions is the number of elements |
| Avl.AvlTree.Empty | common/utils/avl2.h:454-465 | true exactly for no elements |
| Avl.AvlTree.Check | common/utils/avl2.h:524-538 | accepts exactly the balanced, locally ordered trees whose links match and whose size is what the counters say; every valid tree |
| Ranges.DiffExact | common/utils/CoalescingAllocator.cpp:31-51 | the wrapped difference has the right sign if and only if the true difference fits a signed word |
| Ranges.ComparatorCycle | common/utils/CoalescingAllocator.cpp:46-51 | three ranges each of which comes before the next |
| Ranges.SizeMisleads | common/utils/CoalescingAllocator.cpp:223-228 | when a range that is too small passes for a sufficient one, both directions |
| Ranges.StartMisleads | common/utils/CoalescingAllocator.cpp:377-399 | when a key compares as lying before a range that it lies after, both directions |
| Ranges.SizeOrder | common/utils/CoalescingAllocator.cpp:31-40 | below 2^31 the size comparator is the lexicographic order by size and start |
| Ranges.MergeRight | common/utils/CoalescingAllocator.cpp:169-185 | merging to the right keeps the space and leaves nothing further to merge on the right |
| Ranges.MergeLeft | common/utils/CoalescingAllocator.cpp:194-207 | merging to the left after that leaves no touching ranges |
| Ranges.MergeNone | common/utils/CoalescingAllocator.cpp:210-211 | a range that touches nothing is added as it is |
| Ranges.RunInside | common/utils/CoalescingAllocator.cpp:213-270 | a run of free addresses lies within one free range |
| Ranges.TidyUnique | common/utils/CoalescingAllocator.cpp:157-211 | free addresses determine the free ranges |
| Allocator.Owner.DropRef | common/utils/CoalescingAllocator.cpp:69-76 | the owner dies exactly when the count reaches zero |
| RangeIndex.PutCorrect | common/utils/CoalescingAllocator.cpp:141-149 | insertion into an index: a balanced tree of the old ranges and the new one |
| RangeIndex.DropCorrect | common/utils/CoalescingAllocator.cpp:130-139 | removal from an index: a balanced tree of the remaining ranges |
| RangeIndex.SearchByStart | common/utils/CoalescingAllocator.cpp:163-189 | the searches by start are exact up to 2^31; beyond, the first range of the index is found if its root misleads the search, and none otherwise |
| RangeIndex.SearchBySize | common/utils/CoalescingAllocator.cpp:223-228 | the smallest sufficient range, the lowest on ties, up to 2^31; beyond, the first range of the index if its root misleads the search, and none otherwise |
| Allocator.CarvedDisjoint | common/utils/CoalescingAllocator.cpp:338-368 | the fragments left of a cut allocation overlap nothing |
| Allocator.CarvedOwns | common/utils/CoalescingAllocator.cpp:338-368 | exactly the addresses of the cut change hands |
| Allocator.CarvedCount | common/utils/CoalescingAllocator.cpp:347-364 | how the number of fragments of each owner changes |
| Allocator.CountOwns | common/utils/CoalescingAllocator.cpp:53-93 | an owner has a fragment exactly if it owns an address |
| Allocator.GapEmpty | common/utils/CoalescingAllocator.cpp:383-401 | between the two searches there is no allocated address |
| Allocator.FitsRun | common/utils/CoalescingAllocator.cpp:227-233 | a sufficient free range exists exactly if a long enough run does |
| Allocator.TakeFront | common/utils/CoalescingAllocator.cpp:236-262 | taking the front of a free range keeps every separation and conserves space |
| Allocator.CoalescingAllocator.CreateEmptyRangeNoLock | common/utils/CoalescingAllocator.cpp:157-211 | both indexes stay equal and tidy, the space grows by the range, right-coalescing happens at most once |
| Allocator.CoalescingAllocator.CreateEmptyRange | common/utils/CoalescingAllocator.cpp:123-128 | the range becomes free; the space stays disjoint and conserved if and only if the range overlaps no allocation |
| Allocator.DonatedTwice | common/utils/CoalescingAllocator.cpp:123-128 | a range donated, allocated and donated again is both free and allocated |
| Allocator.CoalescingAllocator.InsertCoalescedFreeRange | common/utils/CoalescingAllocator.cpp:141-149 | the range joins both free indexes |
| Allocator.CoalescingAllocator.RemoveFreeRange | common/utils/CoalescingAllocator.cpp:130-139 | the range leaves both free indexes |
| Allocator.CoalescingAllocator.AddFragment | common/utils/CoalescingAllocator.cpp:78-85 | a new fragment takes a reference and a place in the index |
| Allocator.CoalescingAllocator.CutFragment | common/utils/CoalescingAllocator.cpp:338-364 | the allocated index after a cut; counts and lives of owners stay exact |
| Allocator.CoalescingAllocator.FreeSubrange | common/utils/CoalescingAllocator.cpp:338-368 | all invariants are kept through a cut |
| Allocator.CoalescingAllocator.FreeLoop | common/utils/CoalescingAllocator.cpp:370-408 | the loop ends for every 32-bit argument, stops at its assertion exactly on a redundant free that is not allowed, and otherwise frees what Freeing says |
| Allocator.CoalescingAllocator.FreeRange | common/utils/CoalescingAllocator.cpp:370-408 | what is free, what stays owned by whom, and which owners live afterwards; exactly the argument is freed if and only if the search does not go astray, and otherwise everything |
| Allocator.FreedElsewhere | common/utils/CoalescingAllocator.cpp:370-408 | freeing [0x80000010,0x80000020) frees the allocation [0,16) |
| Allocator.CoalescingAllocator.AllocateRange | common/utils/CoalescingAllocator.cpp:213-270 | succeeds exactly when a run is long enough, with the front of the best fit for a new owner; stops at its assertion exactly if the root of the free index misleads the search |
| Allocator.LargeRequest | common/utils/CoalescingAllocator.cpp:227-240 | a request of 0x90000000 bytes with 16 bytes free stops at the assertion |
| Allocator.CoalescingAllocator.Consume | common/utils/CoalescingAllocator.cpp:236-265 | the front is taken, the rest stays free |
| Allocator.CoalescingAllocator.LookupValue | common/utils/CoalescingAllocator.cpp:316-336 | the allocation around an address, none exactly when it is not allocated, for every 32-bit value |
| Allocator.CoalescingAllocator.AllocateThenFree | common/utils/CoalescingAllocator.cpp:213-408 | freeing what was just allocated restores the free indexes and destroys the owner |
| VmacArith.Mask | common/crypto/vmac.c:40 | the low 29 bits of each half of the word, and no others |
| VmacArith.WideProduct | common/crypto/vmac.c:683-726 | the 128-bit product in 32-bit limbs |
| VmacArith.StepSum | common/crypto/vmac.c:683-726 | what the four stages drop is a multiple of 2^127-1 |
| VmacArith.PolyStep | common/crypto/vmac.c:644-736 | no register wraps and the result is a*k+m modulo 2^127-1, for every accumulator, masked key and message word pair |
| VmacArith.Add128 | common/crypto/vmac.c:201-207 | 128-bit addition from 64-bit additions |
| VmacArith.Mul64 | common/crypto/vmac.c:225-233 | the full product from four half products |
| VmacArith.Reduce127 | common/crypto/vmac.c:780-787 | the full residue modulo 2^127-1 of the input plus the length |
| VmacArith.DivideBy | common/crypto/vmac.c:789-794 | quotient and remainder by 2^64-2^32 without a division |
| VmacArith.AddMod | common/crypto/vmac.c:796-800 | key addition modulo 2^64-257 |
| VmacArith.Reduce64 | common/crypto/vmac.c:803-812 | the full residue modulo 2^64-257 of a 128-bit product |
| VmacArith.FinalVanishes | common/crypto/vmac.c:775-813 | each key of the final hash is added to its own part |
| VmacArith.L3Hash | common/crypto/vmac.c:775-813 | the canonical residue of the product of quotient and remainder, each with its key |
| Vmac.NhPass | common/crypto/vmac.c:631-639 | one pair of words in the three partial sums |
| Vmac.Nh16 | common/crypto/vmac.c:626-641 | half products add up to the sum of full products modulo 2^128 |
| Vmac.NhOneWord | common/crypto/vmac.c:626-641 | a changed word changes the sum by its masked change times the masked partner, so every word counts |
| Vmac.NhOpposite | common/crypto/vmac.c:626-641 | words opposite to their own keys have no weight |
| Vmac.HornerIsPolynomial | common/crypto/vmac.c:1007-1018 | the block loop evaluates the monic polynomial of the block hashes at the key |
| Vmac.StepKeeps | common/crypto/vmac.c:858-869 | a register pair that stands for the hash stands for the next one after a step |
| Vmac.FirstBlock | common/crypto/vmac.c:843-856 | adding the first block to the key is the first step |
| Vmac.TailValue | common/crypto/vmac.c:1019-1029 | the partial block after whole blocks |
| Vmac.TailPolynomial | common/crypto/vmac.c:1019-1029 | with a partial block the value is the polynomial of the whole blocks, shifted, plus the partial one |
| Vmac.LengthCounts | common/crypto/vmac.c:1019-1029 | the number of bytes in the last block tells equal values apart |
| Vmac.TailHolds | common/crypto/vmac.c:1019-1029 | the words of a partial block are the fewest pairs that hold its bytes |
| Vmac.FillHashKey | common/crypto/vmac.c:1101-1109 | the words of the hash key are the encryptions of the numbered blocks |
| Vmac.FillLastKey | common/crypto/vmac.c:1122-1133 | the first pair of encrypted words that are both below 2^64-257 |
| Vmac.KeySchedule | common/crypto/vmac.c:1095-1133 | all keys of a cipher, in the ranges that the hash needs |
| Vmac.KeyBlocksDiffer | common/crypto/vmac.c:1102-1137 | no block is encrypted twice for the keys |
| Vmac.ScheduledWords | common/crypto/vmac.c:1102-1120 | the hash and polynomial keys, word by word, from the blocks that are encrypted |
| Vmac.ScheduledLast | common/crypto/vmac.c:1122-1133 | the last keys are the first pair of residues modulo 2^64-257 |
| Vmac.ScheduledUnique | common/crypto/vmac.c:1095-1137 | a cipher has one key schedule |
| Vmac.Context.constructor | common/crypto/vmac.c:1095-1141 | a fresh context with the keys of the cipher and an empty cache |
| Vmac.Context.Absorb | common/crypto/vmac.c:858-869 | the loop over whole blocks |
| Vmac.Context.Update | common/crypto/vmac.c:817-880 | whole blocks join the message, at any point of it |
| Vmac.Context.Accumulate | common/crypto/vmac.c:957-1029 | all four ways to start, and the tail |
| Vmac.Context.Abort | common/crypto/vmac.c:763-772 | the state of a fresh context |
| Vmac.Context.Finish | common/crypto/vmac.c:940-1041 | the one-shot hash of everything absorbed and of the rest, however it was divided; the state starts over |
| Vmac.Context.Mac | common/crypto/vmac.c:1045-1091 | the one-shot tag, whatever the nonce cache holds; with unwritten memory for a pad exactly if the nonce is the mark of an empty cache; the word of the encryption by the parity of the nonce, and the nonce that the cache waits for |
| Vmac.PadIs | common/crypto/vmac.c:1064-1080 | an even nonce takes the first word of its encryption, an odd one the second word of that of the nonce before it |
| Vmac.PadsDiffer | common/crypto/vmac.c:1064-1080 | unless the two encryptions repeat a word, pads are equal if and only if the nonces are |
| Vmac.TagsDiffer | common/crypto/vmac.c:1049-1092 | the same for the tags of one message |
| Vmac.PartnersShare | common/crypto/vmac.c:1064-1080 | the two nonces of a pair share one encryption and take its two words |
| Labels.SplitDotted | common/crypto/DomainName.cpp:256-294 | the dotted text determines its labels |
| Labels.DecodeWire | common/crypto/DomainName.cpp:76-120 | the wire form decodes to its labels, whatever follows it |
| Labels.WireDecode | common/crypto/DomainName.cpp:76-120 | what decodes begins with the wire form of its labels |
| Labels.ApparentIff | common/crypto/DomainName.cpp:76-120 | the labels that a C string shows are the labels of the name if and only if no label has a dot or a null |
| Labels.SuffixText | common/crypto/DomainName.cpp:357-389 | for all texts: a suffix at a label boundary is a suffix of the label list, and conversely |
| Labels.WrittenMore | common/crypto/DomainName.cpp:309-318 | a character or a space added to the last piece changes the buffer as the loop of serialize does |
| Labels.FramesPlain | common/crypto/DomainName.cpp:305-321 | pieces without spaces come out behind their lengths and in lower case |
| Labels.FramesMeet | common/crypto/DomainName.cpp:305-321 | pieces that come out as the framed labels are the labels: the length byte of the first label with a dot, a null or a space is too small |
| Labels.ReproducedIff | common/crypto/DomainName.cpp:303-327 | for every name: serialising gives its wire form if and only if no label has a dot, a null, a space or an upper-case letter |
| Labels.SuffixTransitive | common/crypto/ZPubKey.cpp:156-181 | suffixes of suffixes are suffixes |
| Labels.LoweredText | common/crypto/DomainName.cpp:271-293 | what the loops of the text parser compute |
| Labels.LowerIff | common/crypto/DomainName.cpp:248-254 | a name is in lower case if and only if no byte is from A to Z |
| Labels.FoldedIff | common/crypto/DomainName.cpp:248-254 | two texts are folded to the same one if and only if they differ in the case of letters only |
| Labels.FoldedNames | common/crypto/DomainName.cpp:248-254 | the same for names, label by label |
| Labels.CountedIs | common/crypto/DomainName.cpp:109-112 | the label count is the number of labels that are not the wildcard |
| DomainNames.DomainName.ReadWire | common/crypto/DomainName.cpp:76-120 | leaves its buffer exactly if a label that starts within 255 bytes does not end within them; accepts exactly complete names of at most 255 bytes; text, size and label count |
| DomainNames.OverrunExample | common/crypto/DomainName.cpp:85-115 | labels of 200 and 60 bytes |
| DomainNames.OverrunsIff | common/crypto/DomainName.cpp:85-115 | the constructor leaves its buffer if and only if the bytes begin with complete labels of which the last starts within 255 bytes and ends beyond |
| DomainNames.WildcardExample | common/crypto/DomainName.cpp:109-112 | of an asterisk and "a" one label is counted |
| DomainNames.DomainName.StoreText | common/crypto/DomainName.cpp:270-273 | the copy loop stores the text in lower case |
| DomainNames.DomainName.CountText | common/crypto/DomainName.cpp:275-293 | label count and size on the wire of the first n characters |
| DomainNames.DomainName.ParseText | common/crypto/DomainName.cpp:257-294 | a grammatical name below 255 characters in lower case with its size and label count; exactly which longer ones are refused, leave the buffer or are cut without a null |
| Grammar.Alphabet | common/crypto/DomainName.cpp:132-148 | the characters of the grammar |
| Grammar.CheckLabel | common/crypto/DomainName.cpp:156-179 | the label at the start of a text |
| Grammar.FirstLabel | common/crypto/DomainName.cpp:156-179 | the first piece of a text is a label exactly if the check finds all of it |
| Grammar.CheckSubdomain | common/crypto/DomainName.cpp:184-208 | below 255 characters: accepts exactly dotted labels, and reads beyond the text exactly if it ends in a lone character that is no letter; longer names of the grammar are accepted |
| Grammar.CheckDomainName | common/crypto/DomainName.cpp:236-246 | the same, with the root |
| Grammar.Parse | common/crypto/DomainName.cpp:257-294 | below 255 characters: accepts exactly the grammar and holds the name in lower case |
| Grammar.BadAccepted | common/crypto/DomainName.cpp:184-208 | 255 exclamation marks are accepted |
| DomainNames.DomainName.WritePieces | common/crypto/DomainName.cpp:305-321 | the loop writes the frame of every piece between dots, spaces included, and nothing behind them |
| DomainNames.DomainName.Serialize | common/crypto/DomainName.cpp:303-327 | for every name: the frames of the visible pieces and a zero in exactly size() bytes; the wire form in lower case for labels without dots, nulls and spaces |
| DomainNames.WriteThenRead | common/crypto/DomainName.cpp:76-327 | a written name is read back equal |
| DomainNames.ReadThenWrite | common/crypto/DomainName.cpp:76-327 | every decodable name is reproduced byte for byte if and only if no label has a dot, a null, a space or an upper-case letter |
| DomainNames.UpperCaseExample | common/crypto/DomainName.cpp:303-327 | the bytes 1, 65, 0 come back as 1, 97, 0 |
| DomainNames.SpaceExample | common/crypto/DomainName.cpp:303-327 | the bytes 3, 97, 32, 98, 0 come back as 2, 0, an unwritten byte, 98, 0 |
| DomainNames.NullWritten | common/crypto/DomainName.cpp:303-327 | the bytes 3, 97, 0, 98, 0 come back beginning with 1, 97 |
| DomainNames.SpaceAlone | common/crypto/DomainName.cpp:303-327 | the bytes 1, 32, 0 come back as the root |
| DomainNames.EndsWith | common/crypto/DomainName.cpp:366-388 | the comparison of two texts from the end, and exactly when it reads before the start of the child |
| DomainNames.Suffix | common/crypto/DomainName.cpp:357-389 | exact in the visible labels and the sizes for every name that can be read, the root included, and exactly when it reads before the child's start; for labels without dots and nulls true exactly if the parent's labels end the child's |
| DomainNames.UnderTransitive | common/crypto/DomainName.cpp:357-389 | what passes the suffix test for a name passes it for every name that one passes it for |
| DomainNames.UnderClean | common/crypto/DomainName.cpp:357-389 | for labels without dots and nulls the test is the suffix relation |
| DomainNames.SuffixExample | common/crypto/DomainName.cpp:357-389 | the one-label name "a.com" passes for a child of "com" |
| DomainNames.Equal | common/crypto/DomainName.cpp:396-408 | exact in size, label count and visible text for every name that can be read; for labels without dots and nulls true exactly for equal labels |
| DomainNames.ParsedAlike | common/crypto/DomainName.cpp:257-408 | two parsed names are equal if and only if they differ in the case of letters only |
| DomainNames.EqualExample | common/crypto/DomainName.cpp:396-408 | two names with dots in their labels that count as equal |
| DomainNames.NullExample | common/crypto/DomainName.cpp:396-408 | two names that count as equal because of a null |
| CertChains.VerifyLabel | common/crypto/ZPubKey.cpp:156-181 | true exactly if some prefix of the chain is signed and passes the suffix tests from the anchor on and ends in this key; exactly when a suffix test on the way leaves a name |
| CertChains.VouchedIff | common/crypto/ZPubKey.cpp:156-188 | what a yes means: signatures and names from key to key, and exactly this record at the end |
| CertChains.VouchedOnce | common/crypto/ZPubKey.cpp:173-188 | one chain vouches for one record |
| CertChains.OwnersUnderAnchor | common/crypto/ZPubKey.cpp:149-181 | every owner along a linked prefix passes the suffix test for the anchor's name, and lies under it if no label of either has a dot or a null |
| CertChains.DottedOwner | common/crypto/ZPubKey.cpp:156-181 | the owner "a.com" in one label is accepted under the anchor "com" |
| Worker.Pico.Execute | worker/worker.py:330-338 | starts only without a monitor; keeps a pending wake-up |
| Worker.Pico.Checkpoint | worker/worker.py:340-344 | only a running pico starts a checkpoint |
| Worker.MadeHotKeeps | worker/worker.py:679-720 | a pico that was not hot is hot once it has been made so |
| Worker.YoungestStay | worker/worker.py:679-721 | the youngest entries are hot and the youngest of the others warm, as many as the limits allow |
| Worker.DroppedOne | worker/worker.py:693-698 | a removal keeps the order of the others |
| Worker.StatusHistory | worker/worker.py:705-721 | after any history of counts: overloaded if and only if overfull once and not below the threshold since |
| Worker.Routes | worker/worker.py:472-482 | where traffic is led after ports have been mapped, and unmapped again |
| Worker.Worker.Remove | worker/worker.py:693-698 | the pico leaves both sets |
| Worker.Worker.MakeWarm | worker/worker.py:687-691 | the pico moves to the warm set |
| Worker.Worker.CheckpointPico | worker/worker.py:408-419 | exactly one pico changes: a running one is checkpointed; the callback is set, and called at once for a stopped pico |
| Worker.Worker.ReleaseEntry | worker/worker.py:435-450 | the entry goes unless a wake-up is pending |
| Worker.Worker.RemoveMappings | worker/worker.py:477-494 | the ports of the pico are unmapped; fails exactly for an unknown pico, a port without mapping or a repeated port, and then the ports before that one are unmapped |
| Worker.Worker.AddMappings | worker/worker.py:472-489 | the ports of the pico lead to it, the others are unchanged |
| Worker.Worker.Nap | worker/worker.py:610-616 | checkpoint and move to warm; no other pico changes |
| Worker.Worker.Release | worker/worker.py:595-608 | checkpoint with the upload as its callback; fails exactly if the ports cannot be unmapped; no other pico changes |
| Worker.Worker.ShouldNap | worker/worker.py:700-703 | the oldest hot pico naps when there are too many |
| Worker.Worker.Evict | worker/worker.py:710-714 | the oldest warm pico, or else the oldest hot one, leaves the sets and is released |
| Worker.Worker.TellHub | worker/worker.py:717-720 | the hub is told exactly of changes |
| Worker.Worker.UpdateHubStatus | worker/worker.py:705-720 | the limits hold again; status and message by the two thresholds, none after a failed release |
| Worker.Worker.MakeHot | worker/worker.py:679-685 | one nap and one release suffice to keep both limits; the exact change of every pico, the mapping, the uploads and the status |
| Worker.Worker.StillHot | worker/worker.py:679-720 | running picos stay hot unless the release of the last hot one fails |
| Worker.Worker.RunningBound | worker/worker.py:700-703 | if every running pico of the table is hot, no more run than the hot limit allows |
| Worker.Worker.Start | worker/worker.py:397-406 | a new pico runs and enters the table; a known one is left as it is; the resume flag of the new pico, and no other changed |
| Worker.Worker.Exec | worker/worker.py:581-593 | start, mapping and the exact change of every pico; limits, wake-ups, tracking and hotness are kept; the resume flag of the new pico, and no other changed |
| Worker.Worker.Kill | worker/worker.py:618-622 | the pico leaves table, sets and mapping, marked as killed; fails exactly if its ports cannot be unmapped |
| Worker.Worker.EnsureAlive | worker/worker.py:452-465 | a stopped pico resumes and one being checkpointed is marked |
| Worker.Worker.Wake | worker/worker.py:559-563 | nothing changes for an unmapped port or pico 0, nor for an unknown pico, for which it fails; otherwise the pico resumes or is marked and is made hot, with the exact change of every pico |
| Worker.Worker.MonitorExit | worker/worker.py:363-382 | a woken pico resumes, another checkpointed one stops, and one that ran leaves; the exact cases in which a pico runs without being hot and in which a running pico is lost |
| Worker.Worker.UploadDone | worker/worker.py:602-605 | the pico leaves the sets, and the table unless it was woken; the hub is told in any case; exactly when a pico with a monitor is lost |
| Worker.Overcommitted | worker/worker.py:363-382 | a run after which two picos run with a hot limit of 1 |
| Worker.LostAtExit | worker/worker.py:554-557 | kill, exec and exit of the old monitor lose the new pico |
| Worker.LostAtUpload | worker/worker.py:595-608 | a released pico that runs again is lost when its upload ends |

## Left out

- Limb width: the 32-bit limb build with 64-bit products is modelled; the assembly variants of the inner loops are not.
- Allocation failure, freeing and the zeroing of memory in `bignum.cpp`; every growth succeeds.
- `mpi_read_binary`, `mpi_write_binary`, `mpi_read_string` and the printing functions; RSA results are numbers, not byte strings.
- Division.ModMpi: not for a negative modulus, with which the correction loops go on without end except where a wrong comparison stops them, nor with the result stored over the modulus, where they never end.
- Division.Reduce: the same for a negative modulus.
- Montgomery.MontMul: the second operand is at most the modulus, as in all calls of the file.
- Exponentiation.ExpMod: a negative base has to fit the limbs of the modulus; a longer one is used without reduction.
- Exponentiation.TakeBase: the same for the base it takes.
- Exponentiation.ToMont: the same.
- ModInverse.GcdMpi: not for a zero second argument with a nonzero first one, for which the loop does not end.
- IntegerInverse.BinaryGcd: not for a zero second argument with a nonzero first one, for the same reason.
- IntegerInverse.InvMod: not for N = 1 or a nonzero multiple of a power of two N, on which the loop does not end.
- ModInverse.InvMpi: not for those either; `Stuck` says what happens for a nonzero A. For A = 0 and N = 1 the code may read the first limb of a number without limbs. That a run without loss gives the inverse is one direction; `HarmlessLoss` refutes the converse, and which losses do harm is not characterised.
- Rsa.DeriveKey: prime generation and the retry loop are parameters; an exponent on which the inverse does not end is excluded; which keys lose a carry is given by `LosesCarry` and not characterised by size beyond 2^56.
- Padding, signing and key checking in `rsa.cpp`, and timing.
- AVL keys are integers and an element is its node; locks, allocation pools and the rotation counters over a whole operation are not modelled.
- Avl.AvlTree.Check: the second walk, which compares each node with its children again to test the key class's operators, is not modelled.
- Avl.AvlTree.Insert: keys that are present already trip an assertion in the source and are excluded.
- The indexes of the allocator are the trees of `AvlShape` and `AvlOrder` as values; their refinement by linked nodes is proved in `Avl`. `allocate_range_at`, `force_insert_coalesced_free_range`, `first_range` and `next_range` are not modelled.
- Allocator.CoalescingAllocator.CreateEmptyRange: ranges are not empty, end at 2^31 at most and overlap no free range, which the source asserts.
- AES: the block cipher is a parameter.
- Vmac.KeySchedule: one of the 256 candidate pairs has to fit; without one the loop does not end.
- Vmac.FillLastKey: the same.
- Vmac.Context.constructor: the same.
- Messages of VMAC are sequences of 64-bit words with the length in bytes; byte order and padding of the last words are the caller's. 128-bit tags and the SSE2 and 64-bit variants are not modelled.
- DomainNames.DomainName.ReadWire: a write beyond the buffer ends the model with that outcome; what it overwrites is not modelled.
- DomainNames.DomainName.ParseText: takes texts that have passed the check; `Grammar.Parse` joins the two below 255 characters.
- Grammar.CheckSubdomain: which texts of 255 characters and more it accepts beside those of the grammar is not characterised beyond `BadAccepted`.
- CertChains.VerifyLabel: names are objects that hold labels, as a constructor leaves them.
- Signatures, record serialisation and the remaining key, certificate and record classes; `verify` is a parameter of `VerifyLabel`.
- Worker: processes, signals, S3 transfers, iptables and the hub are events, messages or omitted.
- Worker.Worker.Release: an unknown pico or port raises an exception in the source, which is the result false here.
