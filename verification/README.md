# Boot ROM verification model

A Dafny model of the arithmetic, hashing, ciphering and image-loading code of a boot ROM and its second stage, with
proofs of what that code promises. The layers build on each other:

- **RSA-2048/SHA-256 verifier** (`RsaArithmetic`, `RsaShiftAdd`, `RsaVerify`, `Sha256`, `Sha256Stream`): limb arrays in
  any base b with n limbs, long division with a guessed quotient digit, the fixed exponent 65537, PKCS#1 v1.5, and the
  byte-at-a-time hash against FIPS 180-4.
- **Large-field layer** (`FieldDigits`, `Karatsuba`, `Montgomery`, `FieldModMul`, `FieldInverse`, `FieldPow`,
  `FieldExponentiation`, `FieldBinaryInverse`), digit by digit in one memory shared by operands, result and workspace:
  in-place Karatsuba with its low-half and high-half products, Montgomery reduction built from them, shift-and-subtract
  reduction, Hensel-lifted inverses, the binary inverse, and four ways of exponentiation from the modulus alone.
- **The mathematics under it** (`MontgomeryDomain`, `Hensel`, `ShiftReduce`): what the loops keep, on values.
- **Limb layer** (`Columns`, `Comba`, `FieldReduction`, `Limbs`, `SpecialModulus`, `BinaryInverse`): column multiplication
  within the double-word range, both Montgomery branches, the two special-modulus reductions with their split and fold,
  and the binary inverse.
- **Curve layer** (`Groups`, `ScalarMul`, `BatchAffine`, `Ecdsa`): over any abelian group.
- **Symmetric layer** (`Gf128`, `GcmTable`, `Gcm`, `GcmStream`, `BlockModes`, `CbcWrapper`): the block cipher is an
  arbitrary function on sixteen-byte blocks (with an inverse where decryption needs one).
- **Boot images** (`Greybus`, `TftfHeader`, `SignatureCheck`, `Tftf`, `TftfLoader`, `FfffTable`, `FfffLocate`): the
  loaders as state machines, on top of the same SHA-256 and RSA models. `TftfLoader.Loader.LoadImage` ties the whole
  chain together: a verdict of 1 means that a known 2048-bit key, raised to 65537, turns a signature section into the
  PKCS#1 v1.5 encoding of the SHA-256 digest of exactly the signed bytes.

`Arith`, `Digits`, `Bits` and `Words` hold the shared mathematics: congruences, numbers as digit sequences, the C bit
operators and 32-bit words. Widths are explicit: a base, a capacity or a `% 0x1_0000_0000` wherever the C type wraps.

Properties that the code does not have for all inputs are stated with their exact condition:

- the shift-and-add `tr_modmul` (`RsaShiftAdd.ExactOperands`): right for every multiplier if and only if a <= m;
- `MCL_FF_dmod` (`MontgomeryDomain.DModExact`): a mod b if and only if the digits cut off are a multiple of b; it fails for
  every size of field at a = R*R - 1, b = R - 1 (`MontgomeryDomain.DModFails`);
- the size of a special-modulus reduction, "one bit bigger than MCL_MBITS": for 2^m - c it holds for all operands below X if
  and only if X is at most `SpecialModulus.PseudoLimit`, which is about 2*M*M/c (`SpecialModulus.PseudoFits`), so among all
  products below p*R only if c is 1 and R leaves less than two bits (`SpecialModulus.PseudoPromise`); for 2^m - 2^(m/2) - 1
  the limit is 2*H^3 - H^2 - H + 1, H being 2^(m/2) (`SpecialModulus.GeneralisedFits`), always exceeded below p*R
  (`SpecialModulus.GeneralisedTooBig`); both reductions keep the promise below their limit;
- the Greybus load: the wait for a block ends with any message whose handler answers nonzero, and the test that follows looks
  at the last response of any earlier wait. What is loaded is what was delivered if and only if no AP_READY came in between
  (`Greybus.Link.Load`); `Greybus.LateAnswerMisplaced` has a script in which a late answer lands in the next block's place;
- the ECDSA signing loop (`Ecdsa.Sign`): a `continue` inside `do ... while` jumps to the test of d, so it emits c = 0 if
  and only if the first nonce gives c = 0 and d did not start at 0;
- the FFFF validator (`FfffTable.InBoundsIffNoWrap`): an accepted entry lies inside the image if and only if it does not
  run past 2^32;
- the binary inverse: it ends for coprime operands (`BinaryInverse.InvModP`), and for any others no sequence of the loop's
  assignments makes u or v one (`BinaryInverse.NeverEnds`);
- in-place GCM decryption (`GcmStream.Instance.AddCipher`): what is authenticated is then the plaintext, which is what was
  handed over if and only if the key stream is zero all along it (`GcmStream.InPlace`, and a call that fails in
  `GcmStream.InPlaceFails`);
- `load_tftf_header` returns `false`, which is 0, on a sentinel or size mismatch, and its caller goes on; such a run can
  end with return code 0 (`TftfLoader.AcceptedUnchecked`), but never with the trusted verdict (`TftfLoader.Loader.LoadImage`).

Where the code and its comments differ, the code is modelled: `MCL_MConst` is -1/p modulo the base (the comment in
`mcl_fp.h` says 1/p); the comments on two table entries of `MCL_ECP_mul2` name P+Q and P-Q the wrong way round;
`rsa_verify` does not test that the signature is below the modulus (`RsaVerify.OnlyModuloTheKey`).

## Model

| member | source | states |
|---|---|---|
| RsaArithmetic.Compare | common/vendors/MIRACL/bootrom.c:284-294 | the three outcomes order the values of the limb arrays, each as an if-and-only-if |
| RsaArithmetic.MulRow | common/vendors/MIRACL/bootrom.c:380-391 | one row adds x[i]*b^i*y, carry included, and leaves every limb normalised |
| RsaArithmetic.Multiply | common/vendors/MIRACL/bootrom.c:374-393 | the 2n-limb result has the value of the product, for every base and length |
| RsaArithmetic.FirstGuess | common/vendors/MIRACL/bootrom.c:408-420 | the quotient of the two top limbs is exact and its successor is too large for three |
| RsaArithmetic.RefineGuess | common/vendors/MIRACL/bootrom.c:422-432 | the refine loop ends, at the largest digit acceptable to the top limbs |
| RsaArithmetic.GuessDigit | common/vendors/MIRACL/bootrom.c:408-432 | the guess is the largest digit whose product with the two top divisor limbs fits the three top limbs |
| RsaArithmetic.GuessWithinOne | common/vendors/MIRACL/bootrom.c:395-465 | such a guess is never below the true quotient digit and at most one above, without normalising the divisor |
| RsaArithmetic.SubtractMultiple | common/vendors/MIRACL/bootrom.c:434-447 | value minus a*y up to the returned borrow, other limbs kept |
| RsaArithmetic.AddBack | common/vendors/MIRACL/bootrom.c:451-458 | value plus y up to the returned carry, which is recovered by comparing the wrapped sum |
| RsaArithmetic.DivideStep | common/vendors/MIRACL/bootrom.c:405-464 | one round leaves the window congruent and below the divisor; a single add-back suffices |
| RsaArithmetic.Divide | common/vendors/MIRACL/bootrom.c:395-465 | for any divisor with nonzero top limb the low n limbs become x mod y and the rest zero |
| RsaArithmetic.ModMul | common/vendors/MIRACL/bootrom.c:467-473 | r = a*b mod m, operands reduced or not, r possibly an operand |
| RsaShiftAdd.ShiftLeft | common/vendors/MIRACL/bootrom.c:299-310 | doubles the value, with the bit shifted out as carry |
| RsaShiftAdd.SubtractFrom | common/vendors/MIRACL/bootrom.c:328-341 | value minus x up to the returned borrow |
| RsaShiftAdd.Bit | common/vendors/MIRACL/bootrom.c:344-350 | the bit of weight 2^i of the value of the limb array |
| RsaShiftAdd.ShiftAddModMul | common/vendors/MIRACL/bootrom.c:353-368 | what the loop computes for any operands, and that it is a*b mod m, as the fast form gives, whenever a <= m |
| RsaShiftAdd.RunCorrect | common/vendors/MIRACL/bootrom.c:358-367 | doubling, adding and reducing once per step keeps the residue of a times the bits seen |
| RsaShiftAdd.ExactOperands | common/vendors/MIRACL/bootrom.c:353-368 | for odd m: correct for every multiplier if and only if a <= m |
| RsaVerify.PkcsV15 | common/vendors/MIRACL/bootrom.c:549-560 | the buffer becomes the EMSA-PKCS1-v1_5 encoding of section 9.2 of RFC 8017 |
| RsaVerify.PutByte | common/vendors/MIRACL/bootrom.c:478-488 | replaces one byte of the packed value and no other; out-of-range indices do nothing |
| RsaVerify.PackedUpdate | common/vendors/MIRACL/bootrom.c:478-488 | clearing and setting a byte inside a limb is updating the byte string |
| RsaVerify.PutInLimbBits | common/vendors/MIRACL/bootrom.c:478-488 | the mask, exclusive or and or of the source replace just that byte of the limb |
| RsaVerify.Convert | common/vendors/MIRACL/bootrom.c:514-519 | whatever the array held, it ends with the big-endian value of the octets |
| RsaVerify.RsaPow | common/vendors/MIRACL/bootrom.c:491-511 | s^65537 mod m |
| RsaVerify.ExpectedBlock | common/vendors/MIRACL/bootrom.c:578-585 | the limb-wise layout has the value of the byte encoding |
| RsaVerify.Verify | common/vendors/MIRACL/bootrom.c:566-590 | returns 1 if and only if sig^65537 mod pub is the encoding of the digest (section 8.2.2 of RFC 8017) |
| RsaVerify.OnlyModuloTheKey | common/vendors/MIRACL/bootrom.c:566-590 | congruent signatures get the same verdict, there being no range test |
| Sha256.RotateMacro | common/vendors/MIRACL/bootrom.c:182-183 | two shifts and an or are the circular shift of FIPS 180-4 |
| Sha256.Macros | common/vendors/MIRACL/bootrom.c:185-190 | the four sigma macros are the functions of section 4.1.2 |
| Sha256.HoldsStep | common/vendors/MIRACL/bootrom.c:236-239 | shifting a byte in keeps the words of the block begun, whatever stale word was below |
| Sha256.LengthStep | common/vendors/MIRACL/bootrom.c:241-242 | the two wrapping words count 8 bits per byte modulo 2^64 |
| Sha256Stream.Expand | common/vendors/MIRACL/bootrom.c:196-197 | the 64 words of the message schedule |
| Sha256Stream.Context.Mix | common/vendors/MIRACL/bootrom.c:199-212 | the working variables after 64 rounds of section 6.2.2 |
| Sha256Stream.Context.Transform | common/vendors/MIRACL/bootrom.c:192-215 | the compression of the chaining value with the first sixteen words |
| Sha256Stream.Context.Init | common/vendors/MIRACL/bootrom.c:217-230 | a context that has been fed nothing |
| Sha256Stream.Context.Process | common/vendors/MIRACL/bootrom.c:232-244 | a context fed one byte more, at any length |
| Sha256Stream.LastBlock | common/vendors/MIRACL/bootrom.c:254-256 | the block completed by hand is the last block of the padded message |
| Sha256Stream.Context.Hash | common/vendors/MIRACL/bootrom.c:246-262 | the digest of pad-then-compress over everything fed, and a fresh context |
| Sha256Stream.Update | common/src/crypto.c:70-77 | the context is fed the data after what it had |
| Sha256Stream.HashPieces | common/src/crypto.c:55-91 | any split into updates gives the digest of the concatenation |
| FieldDigits.Add | common/vendors/MIRACL/ara/src/lib/mcl_ff.c:267-282 | digit-wise addition adds the numbers, in place or not, and touches nothing else |
| FieldDigits.Sub | common/vendors/MIRACL/ara/src/lib/mcl_ff.c:291-312 | digit-wise subtraction subtracts the numbers, with negative digits allowed |
| FieldDigits.Normalise | common/vendors/MIRACL/ara/src/lib/mcl_ff.c:328-345 | digits but the last end in range and the number is unchanged |
| FieldDigits.Truncate | common/vendors/MIRACL/ara/src/lib/mcl_ff.c:328-345 | the negative length: the number modulo W^n, all digits in range |
| Karatsuba.KarMul | common/vendors/MIRACL/ara/src/lib/mcl_ff.c:421-447 | the product for every power-of-two length and any digits, writing only z and 2n digits of workspace |
| Karatsuba.KarSqr | common/vendors/MIRACL/ara/src/lib/mcl_ff.c:449-466 | the square, with the lower half normalised |
| Karatsuba.KarMulLower | common/vendors/MIRACL/ara/src/lib/mcl_ff.c:468-486 | the product modulo W^n |
| Karatsuba.KarMulUpper | common/vendors/MIRACL/ara/src/lib/mcl_ff.c:488-507 | completes the low half to the exact product with two half-size products |
| Montgomery.Reduce | common/vendors/MIRACL/ara/src/lib/mcl_ff.c:569-587 | the reduced number, with modulus and inverse kept and only T, r and workspace written |
| Montgomery.ReducedExact | common/vendors/MIRACL/ara/src/lib/mcl_ff.c:569-587 | the division by R leaves no remainder |
| Montgomery.ReducedProperties | common/vendors/MIRACL/ara/src/lib/mcl_ff.c:568-587 | r*R is T modulo N, T/R < r <= T/R + N, and r < 2N for T < N*R |
| Hensel.LiftStep | common/vendors/MIRACL/ara/src/lib/mcl_ff.c:121-134 | an inverse modulo S becomes one modulo S*S |
| Hensel.Round | common/vendors/MIRACL/ara/src/lib/mcl_ff.c:123-133 | the same for the digits as the program splits and cuts them |
| Hensel.InvMod256 | common/vendors/MIRACL/ara/src/lib/mcl_ff.c:77-111 | U*a = 1 modulo 256 for odd a |
| Hensel.InvMod2m | common/vendors/MIRACL/ara/src/lib/mcl_ff.c:114-138 | U*a = 1 modulo 2^bits for every power of two bits >= 8 |
| FieldInverse.WordsDown | common/vendors/MIRACL/ara/src/lib/mcl_ff.c:205-209 | the number divided by W^i, zeros above |
| FieldInverse.WordsUp | common/vendors/MIRACL/ara/src/lib/mcl_ff.c:212-216 | the lower half times W^i |
| FieldInverse.Round | common/vendors/MIRACL/ara/src/lib/mcl_ff.c:732-746 | an inverse on i digits becomes one on 2i digits, in place, whatever the products leave above |
| FieldInverse.FfInvMod2m | common/vendors/MIRACL/ara/src/lib/mcl_ff.c:721-748 | U*a = 1 modulo W^n for every odd a and every power of two n; only U and local arrays written |
| ShiftReduce.Mod | common/vendors/MIRACL/ara/src/lib/mcl_big.c:936-959 | b mod c, with c back at its value after the shifts |
| MontgomeryDomain.DModExact | common/vendors/MIRACL/ara/src/lib/mcl_ff.c:590-622 | a mod b if and only if the digits cut off are a multiple of b |
| MontgomeryDomain.DModFails | common/vendors/MIRACL/ara/src/lib/mcl_ff.c:590-622 | for every R > 2 an input of 2n digits, R*R - 1 with b = R - 1, that is not reduced to a mod b |
| MontgomeryDomain.ExponentsAdd | common/vendors/MIRACL/ara/src/lib/mcl_ff.c:777-795 | the Montgomery product of what stands for x^e and x^f stands for x^(e+f) |
| FieldModMul.DigitShl | common/vendors/MIRACL/ara/src/lib/mcl_ff.c:353-366 | doubles the number in place, the bit out of one digit going into the next |
| FieldModMul.DigitShr | common/vendors/MIRACL/ara/src/lib/mcl_ff.c:369-379 | halves the number in place, rounding down |
| FieldModMul.DigitComp | common/vendors/MIRACL/ara/src/lib/mcl_ff.c:255-264 | orders the two numbers, each outcome as an if-and-only-if |
| FieldModMul.FfMod | common/vendors/MIRACL/ara/src/lib/mcl_ff.c:532-555 | b mod c in place, with the digits of c shifted up and back to what they were |
| FieldModMul.FfModMul | common/vendors/MIRACL/ara/src/lib/mcl_ff.c:777-795 | z*R = x*y modulo p on the digits, in place or not, on both sides of the headroom test; only z, x and workspace written |
| FieldModMul.FfModSqr | common/vendors/MIRACL/ara/src/lib/mcl_ff.c:797-814 | the same for the square |
| FieldPow.CopyUp | common/vendors/MIRACL/ara/src/lib/mcl_ff.c:158-166 | R times the number, in double length |
| FieldPow.CopyDown | common/vendors/MIRACL/ara/src/lib/mcl_ff.c:169-177 | the number itself in double length |
| FieldPow.FfDMod | common/vendors/MIRACL/ara/src/lib/mcl_ff.c:593-622 | for every a the value that is a mod b below b*R - b + R, writing only r and its two local arrays |
| FieldPow.FfNres | common/vendors/MIRACL/ara/src/lib/mcl_ff.c:695-704 | into the Montgomery domain, in place |
| FieldPow.FfRedc | common/vendors/MIRACL/ara/src/lib/mcl_ff.c:707-718 | out of it, fully reduced, in place |
| FieldPow.CondSwap | common/vendors/MIRACL/ara/src/lib/mcl_ff.c:412-418 | exchanges the two numbers if and only if d is 1 |
| FieldPow.ExponentBit | common/vendors/MIRACL/ara/src/lib/mcl_ff.c:834-834 | the bit of weight 2^i of the exponent, read from digit i/BIGBITS |
| FieldPow.FfLadderRound | common/vendors/MIRACL/ara/src/lib/mcl_ff.c:832-842 | from x^h and x^(h+1) to x^(2h+b) and x^(2h+b+1) in the two registers; modulus, inverse and exponent as they were |
| FieldExponentiation.Setup | common/vendors/MIRACL/ara/src/lib/mcl_ff.c:826-826 | the inverse of the modulus at ND, with modulus, exponent and base as they were |
| FieldExponentiation.FfSkPow | common/vendors/MIRACL/ara/src/lib/mcl_ff.c:817-845 | x^e mod p for every odd p and every exponent the n digits at e can hold; r may be x |
| FieldExponentiation.FfSksPow | common/vendors/MIRACL/ara/src/lib/mcl_ff.c:848-872 | x^e mod p for an exponent of one digit |
| FieldExponentiation.PowStep | common/vendors/MIRACL/ara/src/lib/mcl_ff.c:923-928 | a squaring, and a multiplication if the bit is set: from the bits above i to those from i on |
| FieldExponentiation.FfPow | common/vendors/MIRACL/ara/src/lib/mcl_ff.c:909-930 | x^e mod p by square and multiply, as the ladder gives it |
| FieldExponentiation.RightToLeft | common/vendors/MIRACL/ara/src/lib/mcl_ff.c:892-903 | r collects x^done while w stands for x^g and done + g*e is the exponent |
| FieldExponentiation.FfPower | common/vendors/MIRACL/ara/src/lib/mcl_ff.c:875-906 | x^e mod p for a positive machine exponent, with the shortcut for squaring |
| Columns.ColsProduct | common/vendors/MIRACL/ara/src/lib/mcl_big.c:527-600 | the weighted column sums are the product |
| Comba.PairSum | common/vendors/MIRACL/ara/src/lib/mcl_big.c:557-579 | the (a[i]-a[k])*(b[k]-b[i]) terms and the diagonal sum give the column, every partial sum in the double-word range |
| Comba.Mul | common/vendors/MIRACL/ara/src/lib/mcl_big.c:527-600 | the product with normalised limbs under the head-room rule of mcl_config.h |
| Comba.Sqr | common/vendors/MIRACL/ara/src/lib/mcl_big.c:626-717 | the square, limb for limb what the multiplication gives |
| FieldReduction.MontColumns | common/vendors/MIRACL/ara/src/lib/mcl_fp.c:230-261 | (d + q*p)/R below 2p, limbs normalised, every column sum in range |
| FieldReduction.MontRows | common/vendors/MIRACL/ara/src/lib/mcl_fp.c:264-279 | the same for the plain loop |
| FieldReduction.MontFormProperties | common/vendors/MIRACL/ara/src/lib/mcl_fp.c:218-282 | such a value times R is d modulo p, and below 2p for d < p*R |
| FieldReduction.BranchesAgree | common/vendors/MIRACL/ara/src/lib/mcl_fp.c:218-282 | both branches leave the same limbs |
| Limbs.NormLimbs | common/vendors/MIRACL/ara/src/lib/mcl_big.c:844-856 | carries move up and the value is kept; all limbs but the last end in range, whatever their signs |
| Limbs.Imul | common/vendors/MIRACL/ara/src/lib/mcl_big.c:463-471 | c times the value |
| Limbs.Pmul | common/vendors/MIRACL/ara/src/lib/mcl_big.c:475-490 | c times the value, in normalised limbs and a carry above them |
| Limbs.Shl | common/vendors/MIRACL/ara/src/lib/mcl_big.c:722-735 | shifting by w limbs and e bits multiplies by 2^(w*k + e) if the result fits |
| Limbs.Split | common/vendors/MIRACL/ara/src/lib/mcl_big.c:813-833 | quotient and remainder by 2^m, m falling inside the top limb |
| SpecialModulus.FoldTop | common/vendors/MIRACL/ara/src/lib/mcl_fp.c:97-117 | what sticks out above 2^m, in the top limb and the carry, comes back times c |
| SpecialModulus.PseudoMersenneMod | common/vendors/MIRACL/ara/src/lib/mcl_fp.c:90-121 | on both branches a normalised-but-for-the-top number congruent to d modulo 2^m - c, with its size, for every d < p*R; at most m + 1 bits below the limit |
| SpecialModulus.PseudoFits | common/vendors/MIRACL/ara/src/lib/mcl_fp.c:78-82 | all d below X leave at most m + 1 bits if and only if X is at most the limit, computed from m and c alone |
| SpecialModulus.PseudoPromise | common/vendors/MIRACL/ara/src/lib/mcl_fp.c:78-82 | for m >= 3 and 2c <= 2^m: all d below p*R leave at most m + 1 bits if and only if c is 1 and R is at most 3*2^m |
| SpecialModulus.GeneralisedMersenneMod | common/vendors/MIRACL/ara/src/lib/mcl_fp.c:132-150 | a number congruent to d modulo H*H - H - 1, H being 2^(m/2), with its size, for every d < p*R; at most m + 1 bits below the limit |
| SpecialModulus.GeneralisedFits | common/vendors/MIRACL/ara/src/lib/mcl_fp.c:78-82 | all d below X leave at most m + 1 bits if and only if X is at most 2*H^3 - H^2 - H + 1 |
| SpecialModulus.GeneralisedTooBig | common/vendors/MIRACL/ara/src/lib/mcl_fp.c:78-82 | the first d that leaves more is below p*R; so is, when R is at least 2*2^m, the largest 2m-bit number, which leaves more than 3*2^m |
| BinaryInverse.InvModP | common/vendors/MIRACL/ara/src/lib/mcl_big.c:1255-1316 | ends with 0 <= r < p and a*r = 1 modulo p for odd p and coprime a |
| FieldBinaryInverse.Turn | common/vendors/MIRACL/ara/src/lib/mcl_ff.c:640-686 | u/a and v/a stay in x1 and x2 over one turn, digit by digit, and u + v shrinks |
| FieldBinaryInverse.FfInvModP | common/vendors/MIRACL/ara/src/lib/mcl_ff.c:626-690 | the same on the digits, with everything but the result and the local arrays untouched |
| BinaryInverse.SharedDivisorStays | common/vendors/MIRACL/ara/src/lib/mcl_big.c:1266-1311 | a common odd divisor survives each of the loop's assignments, so neither u nor v is 1 |
| BinaryInverse.SharedDivisorSurvives | common/vendors/MIRACL/ara/src/lib/mcl_big.c:1266-1311 | and every finite sequence of them |
| BinaryInverse.NeverEnds | common/vendors/MIRACL/ara/src/lib/mcl_big.c:1255-1316 | for odd p and a sharing a divisor with p, no sequence of assignments brings the loop to its end |
| BinaryInverse.NeverEndsAt | common/vendors/MIRACL/ara/src/lib/mcl_big.c:1255-1316 | at a = 3 and a = 0, p = 9 |
| ScalarMul.Recode | common/vendors/MIRACL/ara/src/lib/mcl_ecp.c:963-972 | odd digits within [-15,15], leftover exactly 1, weighted sum the odd scalar |
| ScalarMul.RecodeStep | common/vendors/MIRACL/ara/src/lib/mcl_ecp.c:965-971 | the rest stays odd and shrinks by the base until it is 1 |
| ScalarMul.RecodeJoint | common/vendors/MIRACL/ara/src/lib/mcl_ecp.c:1043-1054 | both scalars in base 4, packed as 4a + b |
| ScalarMul.Select | common/vendors/MIRACL/ara/src/lib/mcl_ecp.c:108-128 | the table entry of the digit's magnitude with the digit's sign |
| ScalarMul.OddTable | common/vendors/MIRACL/ara/src/lib/mcl_ecp.c:938-948 | P, 3P, ..., 15P |
| ScalarMul.EvaluateWindows | common/vendors/MIRACL/ara/src/lib/mcl_ecp.c:974-983 | the digits, evaluated from the top, give their weighted sum times P |
| ScalarMul.Multiply | common/vendors/MIRACL/ara/src/lib/mcl_ecp.c:888-987 | e*P in every abelian group |
| ScalarMul.Ladder | common/vendors/MIRACL/ara/src/lib/mcl_ecp.c:862-883 | e*P by the ladder, as the window form gives it |
| ScalarMul.BuildJointTable | common/vendors/MIRACL/ara/src/lib/mcl_ecp.c:1010-1020 | the eight combinations that joint digits select |
| ScalarMul.JointSelected | common/vendors/MIRACL/ara/src/lib/mcl_ecp.c:108-128 | the packed digit 4a + b selects a*P + b*Q |
| ScalarMul.Multiply2 | common/vendors/MIRACL/ara/src/lib/mcl_ecp.c:994-1066 | e*P + f*Q in every abelian group |
| BatchAffine.InvertAll | common/vendors/MIRACL/ara/src/lib/mcl_ecp.c:824-846 | one inversion gives the inverse of every z |
| BatchAffine.MultiAffine | common/vendors/MIRACL/ara/src/lib/mcl_ecp.c:819-856 | every point keeps its Jacobian value and gets z = 1 |
| Ecdsa.SignOnce | common/vendors/MIRACL/ara/src/lib/mcl_ecdh.c:513-530 | one pass with one nonce |
| Ecdsa.Sign | common/vendors/MIRACL/ara/src/lib/mcl_ecdh.c:512-531 | what the loop emits comes from one of the nonces drawn, and when it emits c = 0 |
| Ecdsa.Verify | common/vendors/MIRACL/ara/src/lib/mcl_ecdh.c:542-598 | the verdict is that of section 6.4 of FIPS 186-4 |
| Ecdsa.Completeness | common/vendors/MIRACL/ara/src/lib/mcl_ecdh.c:492-598 | every emitted pair with nonzero c and d is accepted for the public point s*G |
| Gf128.TimesXPoly | common/vendors/MIRACL/ara/src/lib/mcl_gcm.c:88-93 | the shift with 0xE1 folded in multiplies the polynomial by x modulo x^128 + x^7 + x^2 + x + 1 |
| Gf128.ProductIsPolynomial | common/vendors/MIRACL/ara/src/lib/mcl_gcm.c:97-116 | the shift-and-xor product of section 6.3 of SP 800-38D is the remainder of the carry-less product |
| Gf128.ProductUnique | common/vendors/MIRACL/ara/src/lib/mcl_gcm.c:97-116 | and the only one below degree 128 |
| Gf128.MulCommutes | common/vendors/MIRACL/ara/src/lib/mcl_gcm.c:97-116 | the product is commutative |
| Gf128.MulDistributes | common/vendors/MIRACL/ara/src/lib/mcl_gcm.c:97-116 | the product distributes over xor |
| GcmTable.PackValue | common/vendors/MIRACL/ara/src/lib/mcl_gcm.c:68-71 | shifts and ors give the big-endian word |
| GcmTable.Unpack | common/vendors/MIRACL/ara/src/lib/mcl_gcm.c:73-79 | the four big-endian bytes, in place |
| GcmTable.Precompute | common/vendors/MIRACL/ara/src/lib/mcl_gcm.c:81-94 | row i of the table is x^i times the hash key |
| GcmTable.BlockBit | common/vendors/MIRACL/ara/src/lib/mcl_gcm.c:107-113 | the bit the loop reads is the coefficient of x^i |
| GcmTable.Gf2Mul | common/vendors/MIRACL/ara/src/lib/mcl_gcm.c:97-116 | the state becomes its field product with the hash key |
| Gcm.GctrTwice | common/vendors/MIRACL/ara/src/lib/mcl_gcm.c:207-262 | counter mode undoes itself |
| Gcm.GctrSame | common/vendors/MIRACL/ara/src/lib/mcl_gcm.c:207-262 | a text is its own encryption if and only if the key stream is zero all along it |
| Gcm.GctrCut | common/vendors/MIRACL/ara/src/lib/mcl_gcm.c:207-233 | and may be cut anywhere once positions are counted |
| Gcm.GhashMore | common/vendors/MIRACL/ara/src/lib/mcl_gcm.c:142-150 | one more zero-padded chunk is one more block of GHASH |
| Gcm.TickCounts | common/vendors/MIRACL/ara/src/lib/mcl_gcm.c:147-147 | the two words count bytes modulo 2^64 |
| Gcm.BitsOfCount | common/vendors/MIRACL/ara/src/lib/mcl_gcm.c:126-129 | the shifts turn the byte count into bits modulo 2^64 |
| Gcm.CryptBlock | common/vendors/MIRACL/ara/src/lib/mcl_gcm.c:223-228 | xor with the key stream, and which bytes are absorbed when source and destination are one buffer |
| GcmStream.WrapUp | common/vendors/MIRACL/ara/src/lib/mcl_gcm.c:119-134 | the length block closes GHASH |
| GcmStream.Instance.Init | common/vendors/MIRACL/ara/src/lib/mcl_gcm.c:157-183 | the initial counter of section 7.1 of SP 800-38D, for twelve-byte and other vectors |
| GcmStream.Instance.AddHeader | common/vendors/MIRACL/ara/src/lib/mcl_gcm.c:187-203 | accepted exactly in the header status; the header grows, or nothing changes |
| GcmStream.Instance.AddPlain | common/vendors/MIRACL/ara/src/lib/mcl_gcm.c:207-233 | ciphertext at the right stream position, absorbed, in place or not; the status after it |
| GcmStream.Instance.AddCipher | common/vendors/MIRACL/ara/src/lib/mcl_gcm.c:237-262 | plaintext at the right stream position, and what is absorbed |
| GcmStream.InPlace | common/vendors/MIRACL/ara/src/lib/mcl_gcm.c:237-262 | in place, what is authenticated is the ciphertext handed over if and only if the key stream is zero all along it |
| GcmStream.InPlaceFails | common/vendors/MIRACL/ara/src/lib/mcl_gcm.c:237-262 | one call in place that authenticates something else |
| GcmStream.Instance.Finish | common/vendors/MIRACL/ara/src/lib/mcl_gcm.c:266-281 | the tag of section 7.1 for all header and cipher bytes so far; a further call, which nothing refuses, works on the cleared state |
| GcmStream.Run | common/vendors/MIRACL/ara/src/lib/mcl_gcm.c:50-56 | a run is accepted if and only if all cuts but the last are whole blocks, and then equals the one-shot definition |
| GcmStream.SealAndOpen | common/vendors/MIRACL/ara/src/lib/mcl_gcm.c:187-281 | decryption cut in any other way recovers the text with the same tag |
| BlockModes.StepUndone | common/vendors/MIRACL/ara/src/lib/mcl_aes.c:493-600 | in each mode decryption undoes encryption and leaves the same register |
| BlockModes.RunUndone | common/vendors/MIRACL/ara/src/lib/mcl_aes.c:493-600 | the same for any sequence of blocks |
| BlockModes.Aes.Encrypt | common/vendors/MIRACL/ara/src/lib/mcl_aes.c:493-542 | buffer, register and return value as sections 6.1 to 6.4 of SP 800-38A give them |
| BlockModes.Aes.Decrypt | common/vendors/MIRACL/ara/src/lib/mcl_aes.c:546-600 | the same for decryption |
| CbcWrapper.CbcUndone | common/vendors/MIRACL/ara/src/lib/mcl_ecdh.c:279-362 | chained decryption undoes chained encryption |
| CbcWrapper.Encrypt | common/vendors/MIRACL/ara/src/lib/mcl_ecdh.c:279-317 | the chained encryption of the padded message, cut to the output capacity; nothing for the empty message |
| CbcWrapper.Decrypt | common/vendors/MIRACL/ara/src/lib/mcl_ecdh.c:320-362 | accepts if and only if the input is empty or whole blocks with good padding, and then returns the text without it |
| CbcWrapper.RoundTrip | common/vendors/MIRACL/ara/src/lib/mcl_ecdh.c:279-362 | every message that fits its buffers comes back |
| Greybus.Link.GetFirmware | common/src/gbboot.c:127-157 | 0 if and only if the request went out and the wait ended well with get-firmware the last response seen; the previous block is hashed once the request is out; what is at the block's place |
| Greybus.Link.AwaitMessage | common/src/gbcore.c:269-291 | the first message with a nonzero verdict ends the wait; return code, last response and bytes copied |
| Greybus.Link.LoadBlock | common/src/gbboot.c:303-313 | one more block keeps the account of bytes, state and hash |
| Greybus.RunTook | common/src/gbboot.c:286-321 | a load brings exactly what was delivered if no AP_READY came in between, and more than that if one did |
| Greybus.LateAnswerMisplaced | common/src/gbboot.c:75-84 | after an earlier block, AP_READY leaves a block unwritten and the late answer goes into the next one's place |
| Greybus.Link.LoadBlocks | common/src/gbboot.c:294-314 | 0 if and only if every request succeeds; all but the last block hashed on the way, bytes in place, offset advanced modulo 2^32 |
| Greybus.Link.Load | common/src/gbboot.c:286-321 | 0 if and only if the wrapped bound holds and every request succeeds; the hash got exactly the bytes at the destination once and in order, or nothing; those are the bytes delivered exactly if no AP_READY came in between |
| TftfHeader.CollisionFree | common/src/tftf.c:465-479 | disjoint from the following sections up to the first ignored one or the end |
| TftfHeader.ValidSection | common/src/tftf.c:405-482 | accepts exactly the sections that are known, fit and do not collide; the flags |
| TftfHeader.ValidHeader | common/src/tftf.c:491-518 | accepts exactly the tables that end in range with every section accepted and the entry point in code |
| SignatureCheck.SameNameMeans | common/src/utils.c:86-103 | names match when they agree up to the first NUL |
| SignatureCheck.FindPublicKey | common/src/crypto.c:94-118 | the first key that is not revoked and has the type and name asked for |
| SignatureCheck.VerifySignature | common/src/crypto.c:153-190 | 0 if and only if that key exists and the RSA check on the digest passes |
| Tftf.RunStep | common/src/tftf.c:254-298 | one more section keeps the account of what has been hashed and confirmed |
| Tftf.UnhashedStep | common/src/tftf.c:259-276 | verified if and only if some signature section so far confirms the digest |
| TftfLoader.Loader.DiscardSection | common/src/tftf.c:225-241 | 0 if and only if every piece loads; a discarded section is read whole, in pieces, and hashed as asked |
| TftfLoader.Loader.ProcessSection | common/src/tftf.c:254-298 | the step of the crypto state, digest and hash that the section's type calls for |
| TftfLoader.Loader.ScanSections | common/src/tftf.c:164-222 | hashing starts at the first unhashed section with the header before it; fails exactly for compressed sections or a hashed one after it |
| TftfLoader.Loader.ReadHeader | common/src/tftf.c:97-123 | when the loads succeed, what they leave in the header, and when it is looked at further |
| TftfLoader.Loader.LoadHeader | common/src/tftf.c:87-222 | 0 if and only if the loads succeed and a checkable header is valid, for this chip, and ordered; an unchecked one leaves the state at INIT |
| TftfLoader.Loader.LoadImage | common/src/tftf.c:300-370 | 0 if and only if header and sections load, pass and are acceptable; verdict 1 if and only if then some section is a signature in a checked header, and only if one confirms the digest of the header front and the hashed sections in order; accepted without it only when permitted |
| TftfLoader.AcceptedUnchecked | common/src/tftf.c:97-123 | 512 zero bytes are accepted with return code 0 and verdict 0 where untrusted images are allowed |
| TftfLoader.RunEnds | common/src/tftf.c:316-329 | a verified end state is a trusted run |
| FfffTable.ScanFollowing | common/src/ffff.c:111-137 | the forward scan succeeds exactly when nothing before the end collides with or duplicates the element |
| FfffTable.ValidElement | common/src/ffff.c:58-141 | accepts exactly the end marker and elements that are placed, aligned and cleared by the scan |
| FfffTable.PairsApart | common/src/ffff.c:103-110 | forward scans from every element cover every pair |
| FfffTable.ValidateElements | common/src/ffff.c:173-185 | accepts exactly the tables that end in range with every entry placed and every pair apart |
| FfffTable.ValidateHeader | common/src/ffff.c:143-189 | the same with sentinel, block size, capacity and image length |
| FfffTable.InBoundsIffNoWrap | common/src/ffff.c:88-95 | an accepted entry is inside the image if and only if it does not run past 2^32; it never overlaps the headers |
| FfffTable.PairwiseDisjoint | common/src/ffff.c:111-137 | accepted entries that do not wrap share no byte, and no two are duplicates |
| FfffTable.AlignedIsDivisible | common/src/utils.c:124-126 | the mask test is divisibility for a power-of-two block |
| FfffTable.AcceptedAligned | common/src/ffff.c:97-101 | accepted entries start on block boundaries |
| FfffTable.WrappingAccepted | common/src/ffff.c:88-95 | a header that is accepted with an entry running past the image |
| FfffLocate.LoadHeader | common/src/ffff.c:202-242 | valid if and only if there is a good header on the flash, and the buffer is then a copy |
| FfffLocate.Ffff.SearchSecond | common/src/ffff.c:272-287 | the first good power-of-two address |
| FfffLocate.Ffff.LocateTable | common/src/ffff.c:244-308 | the good header no older than the other copy; failure only for a read fault or for want of one |
| FfffLocate.Ffff.LocateElement | common/src/ffff.c:310-350 | the first element of the highest generation of its type before the end marker, or none of that type |
| FfffLocate.Ffff.LocateOnStorage | common/src/ffff.c:352-374 | both together, in terms of the flash contents; failure only for a read fault, no good header, or no such element in the newest header |

## Left out

- Hensel.InvMod2m: works on the value of a digit, and so do ShiftReduce.Mod and BinaryInverse.InvModP on that of a BIG; the
  limbs they overwrite are not captured. FieldModMul.FfMod and FieldBinaryInverse.FfInvModP are the last two digit by digit.
- FieldExponentiation.FfSkPow: the limbs inside a digit are not modelled, so bit tests, shifts and swaps work on whole digits;
  the local arrays are places in the shared memory.
- Karatsuba.KarMul: digits are unbounded integers, as everywhere in the large-field layer; head room of the limbs inside a
  digit across a whole exponentiation is not modelled. All arrays lie in one memory and are told apart by offsets.
- Karatsuba.KarMulUpper: operands must have normalised digits, which is how FF_reduce calls it.
- FieldExponentiation.FfPower: for exponent 0 the source reads a result it never wrote, so e >= 1.
- RsaVerify.Verify: only moduli whose top 32-bit limb is nonzero; the division loop needs a nonzero top limb.
- RsaVerify.RsaPow: the branch for exponent 3 is not modelled.
- ScalarMul.Multiply: scalars must leave four bits of a BIG unused, which the digit array of the source needs.
- BatchAffine.MultiAffine: all z coordinates must be invertible; infinity is a flag of the point in the source, whose z stays as it was,
  and the flag is not modelled.
- SpecialModulus.PseudoMersenneMod: limbs are unbounded integers, so the head room of a chunk is not modelled, nor is the
  variant for 16-bit chunks; the Montgomery-friendly branch of MCL_FP10_mod is not modelled.
- FieldReduction.MontColumns: only for 2p <= R, so that the result fits its limbs.
- GcmStream.Instance.Finish: the cipher with its key schedule cleared is an arbitrary function.
- TftfLoader.Loader.LoadImage: section data go to memory of their own; an image that loads over the loader's state is not
  modelled, nor are error codes, timestamps copied to the communication area and the record of the validating key.
- Greybus.Link.Load: the messages of the other side are an arbitrary finite script, and a wait that none of them ends counts as
  failed; framing and the choice among several connections are not modelled.
- SignatureCheck.FindPublicKey: the key table of the first boot stage; revocation is a field of the key.
- Pairwise disjointness of TFTF sections: not claimed, since the collision scan stops at the first ignored section.
- The multiplication and squaring branches without COMBA, which use MCL_muladd.
- MCL_FF_pow2, square roots, Jacobi symbols and primality tests.
- AES round tables and key schedule: the block cipher is an arbitrary function with a left inverse.
- Curve formulas: the group law is assumed, as are the octet, random and hash libraries behind ECDSA.
- ECIES, key derivation, certificates, manifests, UniPro, SPI, UART and mailbox drivers, and debugging output.
