# Boot-loader support headers: a verified model

The SDK's second-stage boot loader (`brandy/brandy-2.0/spl-pub`) carries headers whose macros and
inline functions do real work: big-number arithmetic and DER decoding for signature checks, an
overlapping memory copy for the device tree, a block-cipher loop, descriptor bitmaps, alignment
arithmetic, and the branch instruction at the start of a boot image. This project models them in Dafny and
proves what they are for.

The target is the 32-bit one: `unsigned long`, `unsigned int` and `size_t` are 32-bit words that
wrap (`THIRTY_TWO_BIT` in `bn.h` lines 78-107, the configuration chosen by `opensslconf.h`). Words and
bytes are natural numbers; `&`, `|`, `~` and `>>` are defined bit by bit in `Bits.dfy`, and their relation to
division is proved for every exponent. A signed `int` is a 32-bit integer; overflow, which C leaves undefined, is
modelled as two's-complement wrapping, and the results state exactly where none occurs.

## Layout

| file | models |
|---|---|
| `Bits.dfy` | unsigned words, bitwise operators, masks |
| `Ints.dfy` | signed 32-bit ints: wrapping, truncating division |
| `Memory.dfy` | stores and slices of a flat byte memory |
| `BnWord.dfy` | the step macros of `bn_lcl.h` in their four forms |
| `BnWords.dfy` | values of word sequences, rows, the schoolbook product |
| `BigNum.dfy` | `struct bignum_st`, normal form, the `BN_is_*` predicates |
| `Asn1Header.dfy` | tag bytes; identifier and length octets of ITU-T X.690 |
| `Asn1Fields.dfy` | item codecs, and one tagged field written and read |
| `Asn1Reader.dfy` | the decoding cursor and its macros |
| `Asn1Writer.dfy` | the length pass and the put pass |
| `Asn1RoundTrip.dfy` | round trips of field lists and sequences |
| `Asn1Schema.dfy` | types of any depth, mixing items and nested sequences |
| `Asn1Examples.dfy` | single messages, stored and refused |
| `FdtMove.dfy` | `fdt_memmove` |
| `EcbCipher.dfy` | the ECB loop |
| `FdSet.dfy` | the `fd_set` bitmap |
| `Align.dfy` | rounding forms and the aligned stack buffer |
| `Fractions.dfy` | `mult_frac` and `DIV_ROUND_CLOSEST` |
| `JumpInstruction.dfy` | the jump word of the boot head |

## How the sources are rendered

- A macro that assigns its arguments is a method whose out-parameters are the new values; a macro that moves a
  struct's fields is a method of a class with those fields. Loops are the sources' loops.
- Where a loop's meaning is a specification function (`Run`, `CopyUp`, `ReadFields`, `WriteSequence`), the method's
  postcondition equates the new state with it and the lemmas are about that function.
- `bn_mul_words`, `bn_mul_add_words` and `bn_mul_normal` are only declared in the repository. Their loops here
  thread the carry through the step macros, which is what the macros' in/out parameter `c` is built for.
- Callees of the ASN.1 macros are not in the repository either. Item codecs are values with a contract
  (`Good`): they stay in the window, refuse a negative length, announce the size they write, start with
  their universal tag, and read back what they wrote. `ASN1_get_object`, `ASN1_put_object`, `ASN1_object_size`,
  `asn1_GetSequence` and `ASN1_const_check_infinite_end` do what sections 8.1.2, 8.1.3 and 8.1.5 of X.690 require.
  `asn1_const_Finish`, which ends a decoding function, accepts a definite sequence when `c.slen` is used up and an
  indefinite one when its end-of-contents octets come next, which it steps over, or `c.eos` says they have been
  stepped over (`Cursor.ConstFinish`).
- The block cipher is a function from blocks to blocks.

## Results that are false of the code as one might state them

- `bn_correct_top` leaves the sign alone, so a zero can keep `neg`. `BN_is_zero`, `BN_is_one`, `BN_is_word` and `BN_is_odd`
  are still right about it; `BN_is_negative` is not. It is right about a normalised number exactly when that is not
  such a zero (`BigNumber.NegativeIsExact`, `BigNumber.CorrectNegativeZero`), and the signed value determines sign and words exactly
  for nonzero numbers (`SignedIsCanonical`).
- `BN_is_zero` and `BN_abs_is_word` are wrong about numbers out of normal form that fit one word, and only about those
  (`BigNumber.PredicatesNeedNormalForm`, with `BigNumber.UnnormalisedZero` and `BigNumber.UnnormalisedWord`).
- `M_ASN1_D2I_get_EXP_opt` does not check that a definite-length wrapper was used up; the cursor stops at the
  end of the element exactly when the codec takes all of the contents (`ExplicitEndsWithElement`,
  `ExplicitLeavesExtra`).
- `M_ASN1_D2I_end_sequence` steps over end-of-contents octets without charging `c.slen`, so position plus
  `slen` is kept by every get macro, and by this one exactly when it steps over nothing (`Cursor.EndSequence`).
- `bn_expand` adds 31 to the bit count in an `int`. From 2^31 - 31 bits on (first 0x7fff_ffe1) the sum wraps, the
  word count is negative and the number is never expanded (`ExpandIsLeast`, `ExpandOfIntMax`).
- `mult_frac` and `DIV_ROUND_CLOSEST` on ints are exact, or closest, only where the product with the remainder and the
  result, or the sum with half the divisor, are ints (`SignedMultFracIsExact`, `MultFracWraps`, `ClosestSigned`,
  `ClosestOfIntMax`).
- Implicit tags round-trip exactly when they fit a byte and leave bit 5 clear, explicit ones exactly for numbers below
  31 and four others (`ImplicitRoundTrip`, `ExplicitRoundTrip`; tag 32 fails in both: `ImplicitTag32IsAbsent`,
  `ExplicitTag32IsAbsent`).
- The ARM branch word is right exactly for heads of 5 bytes to 2^25 + 4 bytes. The comment in `fes1_head.c`
  (line 115) masks the count to 24 bits and the code does not; with the mask small heads work too. The model
  follows the code (`BranchReachesEndOfHead`, `SmallHeadIsNoBranch`).
- The rounding macros wrap: they round up exactly where the rounded value is a 32-bit word (`RoundsUpExactly`,
  `LargestWordWraps`).

## Model

| member | source | states |
|---|---|---|
| `BnWord.StepFits` | brandy/brandy-2.0/spl-pub/include/openssl/bn_lcl.h:133-138 | a word product plus two words never exceeds a double word, and reaches its maximum only when all four operands are maximal |
| `BnWord.StepIsUnique` | brandy/brandy-2.0/spl-pub/include/openssl/bn_lcl.h:133-145 | the equation the steps establish determines both result words |
| `BnWord.MulAddWide` | brandy/brandy-2.0/spl-pub/include/openssl/bn_lcl.h:133-138 | new carry and word together are exactly a*w + r + c |
| `BnWord.MulWide` | brandy/brandy-2.0/spl-pub/include/openssl/bn_lcl.h:140-145 | new carry and word together are exactly a*w + c |
| `BnWord.SqrWide` | brandy/brandy-2.0/spl-pub/include/openssl/bn_lcl.h:147-152 | the two words are exactly the square |
| `BnWord.MulAddLoHi` | brandy/brandy-2.0/spl-pub/include/openssl/bn_lcl.h:155-165 | the compare-based carries give the same exact sum; the high half never overflows |
| `BnWord.MulLoHi` | brandy/brandy-2.0/spl-pub/include/openssl/bn_lcl.h:167-174 | the same for the first row's step |
| `BnWord.SqrLoHi` | brandy/brandy-2.0/spl-pub/include/openssl/bn_lcl.h:176-179 | the two halves are exactly the square |
| `BnWord.MulAddHigh` | brandy/brandy-2.0/spl-pub/include/openssl/bn_lcl.h:182-193 | the form with a high-half instruction gives the same exact sum |
| `BnWord.MulHigh` | brandy/brandy-2.0/spl-pub/include/openssl/bn_lcl.h:195-203 | the same for the first row's step |
| `BnWord.SqrHigh` | brandy/brandy-2.0/spl-pub/include/openssl/bn_lcl.h:205-209 | the two halves are exactly the square |
| `BnWord.Mul64` | brandy/brandy-2.0/spl-pub/include/openssl/bn_lcl.h:224-240 | four half-word products and two hand-made carries give the exact 64-bit product of the operands with these halves |
| `BnWord.Mul64Carries` | brandy/brandy-2.0/spl-pub/include/openssl/bn_lcl.h:234-237 | the carry of the middle products and the carry into the high word are right and nothing overflows |
| `BnWord.Sqr64` | brandy/brandy-2.0/spl-pub/include/openssl/bn_lcl.h:242-257 | the portable square is the exact 64-bit square |
| `BnWord.CrossTerm` | brandy/brandy-2.0/spl-pub/include/openssl/bn_lcl.h:252-253 | the 2h1 mask and the 17-bit shift split the doubled cross term at bit 32, dropping exactly the bit that moved up |
| `BnWord.MulAddHalves` | brandy/brandy-2.0/spl-pub/include/openssl/bn_lcl.h:259-273 | the portable step gives the exact sum for a multiplier given by its halves |
| `BnWord.MulHalves` | brandy/brandy-2.0/spl-pub/include/openssl/bn_lcl.h:275-287 | the same for the first row's step |
| `BnWord.MulAddFormsAgree` | brandy/brandy-2.0/spl-pub/include/openssl/bn_lcl.h:133-273 | the four `mul_add` forms, run on the same operands, all leave the same word and carry, worth a*w + r + c |
| `BnWord.MulFormsAgree` | brandy/brandy-2.0/spl-pub/include/openssl/bn_lcl.h:140-287 | the four `mul` forms, run on the same operands, all leave the same word and carry, worth a*w + c |
| `BnWord.SqrFormsAgree` | brandy/brandy-2.0/spl-pub/include/openssl/bn_lcl.h:147-257 | `sqr64`, `mul64` on equal operands and the three `sqr` forms, run on the same word, all leave the same two words, worth its square |
| `BnWords.MulAddRow` | brandy/brandy-2.0/spl-pub/include/openssl/bn_lcl.h:259-273 | threading `mul_add` with any carry in over any number of words: new words plus carry out are worth old words, a*w and the carry in; every carry is one word, and nothing else changes |
| `BnWords.MulRow` | brandy/brandy-2.0/spl-pub/include/openssl/bn_lcl.h:275-287 | the same for `mul`: the stored words and the carry out are worth a*w and the carry in |
| `BnWords.RowValue` | brandy/brandy-2.0/spl-pub/include/openssl/bn_lcl.h:259-287 | any run of steps, however long, is worth what it started from plus the product |
| `BnWords.MulAddWords` | brandy/brandy-2.0/spl-pub/include/openssl/bn.h:635 | after a row of any length, new words plus carry at their end are worth old words plus a*w; the carry is one word, nothing else changes, and a row may be added to itself |
| `BnWords.MulWords` | brandy/brandy-2.0/spl-pub/include/openssl/bn.h:636 | a first row of any length is worth a*w, with a one-word carry |
| `BnWords.RowIsUnique` | brandy/brandy-2.0/spl-pub/include/openssl/bn.h:635-636 | that total determines every word of the row and the carry |
| `BnWords.AddRow` | brandy/brandy-2.0/spl-pub/include/openssl/bn_lcl.h:259-273 | one more row with its carry in the next word extends the product by one word of b |
| `BnWords.MulNormal` | brandy/brandy-2.0/spl-pub/include/openssl/bn_lcl.h:290 | na + nb words hold exactly value(a) * value(b), for all lengths, and no other word changes |
| `BnWords.ProductFits` | brandy/brandy-2.0/spl-pub/include/openssl/bn_lcl.h:290 | na + nb words suffice for every product |
| `BnWords.ProductIsUnique` | brandy/brandy-2.0/spl-pub/include/openssl/bn_lcl.h:290 | the product's words are determined by the operands' values |
| `BigNum.BigNumber.CorrectTop` | brandy/brandy-2.0/spl-pub/include/openssl/bn.h:624-633 | on any words: terminates, keeps the value, drops only zero words, reaches normal form, and leaves a normalised number alone |
| `BigNum.NormalIsCanonical` | brandy/brandy-2.0/spl-pub/include/openssl/bn.h:604-612 | normalised numbers of equal value have the same words in use |
| `BigNum.SignedIsCanonical` | brandy/brandy-2.0/spl-pub/include/openssl/bn.h:604-612 | with the sign, a normalised number is determined by its signed value if and only if it is not zero |
| `BigNum.CorrectTopIsCanonical` | brandy/brandy-2.0/spl-pub/include/openssl/bn.h:624-633 | normalising any two arrays of equal value leaves equal `top` and equal words |
| `BigNum.BigNumber.ZeroEx` | brandy/brandy-2.0/spl-pub/include/openssl/bn.h:293-298 | leaves a normalised, non-negative zero |
| `BigNum.BigNumber.PredicatesAgree` | brandy/brandy-2.0/spl-pub/include/openssl/bn.h:285-290 | on a normalised number each predicate answers its question about the signed value |
| `BigNum.BigNumber.PredicatesOnAnyNumber` | brandy/brandy-2.0/spl-pub/include/openssl/bn.h:285-290 | on any number, normalised or not, the word predicates answer their questions for numbers of at most one word in use, and `BN_is_odd` for all |
| `BigNum.BigNumber.NegativeIsExact` | brandy/brandy-2.0/spl-pub/include/openssl/bn.h:341-345 | on a normalised number `BN_is_negative` answers its question exactly when the number is not a zero that kept its sign |
| `BigNum.BigNumber.CorrectTopThenSign` | brandy/brandy-2.0/spl-pub/include/openssl/bn.h:624-633 | the signed value survives `bn_correct_top`, and the sign test after it is right exactly when the number before was nonzero or not marked negative |
| `BigNum.BigNumber.CorrectNegativeZero` | brandy/brandy-2.0/spl-pub/include/openssl/bn.h:624-633 | a failing input: one zero word with the sign set becomes a normalised zero reported as negative |
| `BigNum.BigNumber.PredicatesNeedNormalForm` | brandy/brandy-2.0/spl-pub/include/openssl/bn.h:284-287 | they agree with the value exactly when the number is normalised or needs more than one word |
| `BigNum.BigNumber.UnnormalisedZero` | brandy/brandy-2.0/spl-pub/include/openssl/bn.h:287 | a failing input: one zero word in use is not recognised as zero |
| `BigNum.BigNumber.UnnormalisedWord` | brandy/brandy-2.0/spl-pub/include/openssl/bn.h:285-286 | a failing input: a word below a zero word is not recognised |
| `BigNum.BigNumber.ClearTop2Max` | brandy/brandy-2.0/spl-pub/include/openssl/bn_lcl.h:120-127 | all dmax words are then worth what the words in use are worth, and those are untouched |
| `BigNum.ExpandIsLeast` | brandy/brandy-2.0/spl-pub/include/openssl/bn.h:562-563 | for every int, the number is kept exactly when its words suffice - the count asked for is the least - if and only if there are at most INT_MAX - 31 bits |
| `BigNum.ExpandOfIntMax` | brandy/brandy-2.0/spl-pub/include/openssl/bn.h:562-563 | a failing input: for INT_MAX bits the count is -67108863, and a number without words is kept |
| `Asn1Header.ByteParts` | brandy/brandy-2.0/spl-pub/include/openssl/asn1_mac.h:93-112 | the two masks split a tag byte into its constructed bit and the rest |
| `Asn1Header.HeaderRoundTrip` | brandy/brandy-2.0/spl-pub/include/openssl/asn1.h:867-872 | any header written is read back with its size, whatever follows its contents (callee contract) |
| `Asn1Header.ObjectSizeAgrees` | brandy/brandy-2.0/spl-pub/include/openssl/asn1.h:871-874 | the announced size is the size of the written header plus contents (callee contract) |
| `Asn1Header.LengthForms` | brandy/brandy-2.0/spl-pub/include/openssl/asn1.h:871-872 | the length octets for every length: the short form, or their count and the big-endian octets (callee contract) |
| `Asn1Header.ReadLengthForms` | brandy/brandy-2.0/spl-pub/include/openssl/asn1.h:867-868 | which length octets are read as what, and which are refused (callee contract) |
| `Asn1Header.LowTagHeader` | brandy/brandy-2.0/spl-pub/include/openssl/asn1.h:867-868 | the header found in any octets with a low tag number, and when there is none (callee contract) |
| `Asn1Header.Base128Octets` | brandy/brandy-2.0/spl-pub/include/openssl/asn1.h:871-872 | high tag numbers are written without padding, seven bits an octet, bit 8 marking all but the last (callee contract) |
| `Asn1Fields.LenAgrees` | brandy/brandy-2.0/spl-pub/include/openssl/asn1_mac.h:321-384 | for every kind of field the length macro adds what the put macro writes |
| `Asn1Fields.ReadIsBounded` | brandy/brandy-2.0/spl-pub/include/openssl/asn1_mac.h:72-237 | no get macro consumes more than `c.slen` octets, so it never becomes negative |
| `Asn1Fields.ImplicitTagRoundTrip` | brandy/brandy-2.0/spl-pub/include/openssl/asn1_mac.h:100-112 | the byte the reader patches in is the codec's own first byte |
| `Asn1Fields.ImplicitByteBits` | brandy/brandy-2.0/spl-pub/include/openssl/asn1_mac.h:413-419 | every bit of the written tag byte: context class, tag, and the constructed bit that was there |
| `Asn1Fields.UniversalByteBits` | brandy/brandy-2.0/spl-pub/include/openssl/asn1_mac.h:100-101 | every bit of the patched byte: the codec's tag and the constructed bit found |
| `Asn1Fields.ImplicitRoundTrip` | brandy/brandy-2.0/spl-pub/include/openssl/asn1_mac.h:413-419 | an implicitly tagged item is read back exactly for tags that fit a byte and leave the constructed bit alone |
| `Asn1Fields.ImplicitTag32IsAbsent` | brandy/brandy-2.0/spl-pub/include/openssl/asn1_mac.h:413-419 | a failing input: an item with implicit tag 32 is not found again |
| `Asn1Fields.ExplicitLeadMatches` | brandy/brandy-2.0/spl-pub/include/openssl/asn1_mac.h:214-216 | the byte test accepts the written tag exactly for low tags and four high ones |
| `Asn1Fields.ExplicitRoundTrip` | brandy/brandy-2.0/spl-pub/include/openssl/asn1_mac.h:465-470 | an explicitly tagged item is read back exactly for those tags |
| `Asn1Fields.ExplicitTag32IsAbsent` | brandy/brandy-2.0/spl-pub/include/openssl/asn1_mac.h:465-470 | a failing input: contents with explicit tag 32 are not found again |
| `Asn1Fields.ExplicitEndsWithElement` | brandy/brandy-2.0/spl-pub/include/openssl/asn1_mac.h:214-237 | for any codec and contents, reading a definite wrapper ends at the end of the element if and only if the tag is recognised and the codec takes all of the contents |
| `Asn1Fields.ExplicitLeavesExtra` | brandy/brandy-2.0/spl-pub/include/openssl/asn1_mac.h:214-237 | otherwise the item is accepted and the cursor stops before the extra octets |
| `Asn1Fields.DefiniteExplicit` | brandy/brandy-2.0/spl-pub/include/openssl/asn1_mac.h:214-237 | reading any octets with a definite header: the codec gets exactly the contents, and decides |
| `Asn1Fields.IndefiniteExplicit` | brandy/brandy-2.0/spl-pub/include/openssl/asn1_mac.h:223-235 | with an indefinite header: two octets are kept back, and the read fails unless two zero octets follow the item |
| `Asn1Fields.BadHeader` | brandy/brandy-2.0/spl-pub/include/openssl/asn1_mac.h:219-222 | and it fails without a readable header |
| `Asn1Fields.IndefiniteExplicitRoundTrip` | brandy/brandy-2.0/spl-pub/include/openssl/asn1_mac.h:226-236 | the indefinite form is read back too, header and end-of-contents octets charged |
| `Asn1Reader.Cursor.Get` | brandy/brandy-2.0/spl-pub/include/openssl/asn1_mac.h:73-77 | gives the codec the window as it is: fails where the codec does, else takes what it takes; position plus slen is kept |
| `Asn1Reader.Cursor.GetOpt` | brandy/brandy-2.0/spl-pub/include/openssl/asn1_mac.h:93-98 | gives the codec the window as it is when its tag is next, else takes nothing |
| `Asn1Reader.Cursor.GetImpOpt` | brandy/brandy-2.0/spl-pub/include/openssl/asn1_mac.h:100-114 | the codec sees the patched byte, and the input buffer is as before on the success and the error exit |
| `Asn1Reader.Cursor.GetExpOpt` | brandy/brandy-2.0/spl-pub/include/openssl/asn1_mac.h:214-237 | both length forms: outcome, consumed octets and charge of slen; it is absent exactly when its byte is not next, and what is read under an indefinite header ends with two zero octets |
| `Asn1Reader.Cursor.GetFields` | brandy/brandy-2.0/spl-pub/include/openssl/asn1_mac.h:72-237 | over any run of get macros the input is unchanged, and on success position plus slen is kept |
| `Asn1Reader.FieldsAreParsed` | brandy/brandy-2.0/spl-pub/include/openssl/asn1_mac.h:72-237 | a run accepts exactly the messages in which every field is found, or an optional one is absent, where the field before it ended |
| `Asn1Reader.Cursor.EndSequence` | brandy/brandy-2.0/spl-pub/include/openssl/asn1_mac.h:68-70 | whether the sequence is over - an indefinite one where the window is used up or two zero octets are next - what c.eos becomes, how far the cursor moves without a charge, and that position plus slen is kept exactly when it does not move |
| `Asn1Reader.Cursor.ConstFinish` | brandy/brandy-2.0/spl-pub/include/openssl/asn1_mac.h:35-37 | when a decoding function may end (callee contract): a definite sequence when slen is used up, an indefinite one at its end-of-contents octets or after them |
| `Asn1Reader.Cursor.EndAndFinish` | brandy/brandy-2.0/spl-pub/include/openssl/asn1_mac.h:35-70 | a function whose last loop ended on the end-of-sequence test and then finishes accepts, and ends, where finishing alone would |
| `Asn1Reader.Cursor.GetSequence` | brandy/brandy-2.0/spl-pub/include/openssl/asn1_mac.h:31-70 | a whole decoding function, closed by `asn1_const_Finish`, equals the reading of header, fields and end, and restores the input; when it accepts, the header is that of a SEQUENCE and the cursor is at the end of the element |
| `Asn1Reader.DefiniteOctets` | brandy/brandy-2.0/spl-pub/include/openssl/asn1_mac.h:31-70 | a definite sequence is accepted exactly when its fields take all of its contents |
| `Asn1Reader.IndefiniteOctets` | brandy/brandy-2.0/spl-pub/include/openssl/asn1_mac.h:31-70 | an indefinite one exactly when after its fields the window is used up or two zero octets follow |
| `Asn1Reader.OtherObject` | brandy/brandy-2.0/spl-pub/include/openssl/asn1_mac.h:50-52 | any other object is refused |
| `Asn1Writer.LenFieldsAgrees` | brandy/brandy-2.0/spl-pub/include/openssl/asn1_mac.h:316-498 | for every list of fields the length pass and the put pass agree |
| `Asn1Writer.Writer.PutImpOpt` | brandy/brandy-2.0/spl-pub/include/openssl/asn1_mac.h:413-419 | stores the item with the source's tag byte in place of its first byte and moves p past it, changing nothing else |
| `Asn1Writer.Writer.PutExpOpt` | brandy/brandy-2.0/spl-pub/include/openssl/asn1_mac.h:465-470 | stores a constructed, context-specific header with the saved length, then the item |
| `Asn1Writer.Writer.PutIndefinite` | brandy/brandy-2.0/spl-pub/include/openssl/asn1_mac.h:500-504 | stores an item between the indefinite header and end-of-contents octets |
| `Asn1Writer.I2dSequence` | brandy/brandy-2.0/spl-pub/include/openssl/asn1_mac.h:494-507 | the size returned is the size of the encoding, and no sum of the length pass overflows an int when that size is one; with room for it, the octets stored are 0x30, the length of the fields and the fields, nothing else changes, and the pointer moves by exactly that size |
| `Asn1Writer.SequenceElement` | brandy/brandy-2.0/spl-pub/include/openssl/asn1_mac.h:494-498 | such octets are read as a constructed universal SEQUENCE with the definite length of their contents |
| `Asn1Writer.WrittenInOrder` | brandy/brandy-2.0/spl-pub/include/openssl/asn1_mac.h:405-470 | the octets of every field stand between those of the earlier and of the later fields |
| `Asn1Writer.EncodableBySize` | brandy/brandy-2.0/spl-pub/include/openssl/asn1_mac.h:494-496 | the length pass alone tells whether the encoding's size is an int |
| `Asn1RoundTrip.FieldsRoundTrip` | brandy/brandy-2.0/spl-pub/include/openssl/asn1_mac.h:72-470 | for every list of fields with distinguishable tags and every choice of present values, the get macros recover what the put macros wrote |
| `Asn1RoundTrip.DistinctIsExact` | brandy/brandy-2.0/spl-pub/include/openssl/asn1_mac.h:93-114 | all messages of a field list are recovered if and only if no optional field clashes with what can follow it, that is, has its tag and, if explicit, meets an item that can be constructed |
| `Asn1RoundTrip.ClashIsMistake` | brandy/brandy-2.0/spl-pub/include/openssl/asn1_mac.h:93-216 | fields clash exactly if some written item of one is recognised as the other |
| `Asn1RoundTrip.SequenceRoundTrip` | brandy/brandy-2.0/spl-pub/include/openssl/asn1_mac.h:494-507 | a written sequence is read back, whatever follows it |
| `Asn1RoundTrip.IndefiniteSequenceRoundTrip` | brandy/brandy-2.0/spl-pub/include/openssl/asn1_mac.h:500-504 | so is one in the indefinite form |
| `Asn1RoundTrip.SequenceIsGood` | brandy/brandy-2.0/spl-pub/include/openssl/asn1_mac.h:19-70 | a sequence type meets the item contract again, over the list of its fields' values |
| `Asn1RoundTrip.SequenceCodecMeans` | brandy/brandy-2.0/spl-pub/include/openssl/asn1_mac.h:19-507 | what that item is: its values, encoding, size and decoding |
| `Asn1Schema.LiftedIsGood` | brandy/brandy-2.0/spl-pub/include/openssl/asn1_mac.h:72-77 | an item codec keeps its contract over a wider value type, so one field list can hold items and sequences |
| `Asn1Schema.SchemaRoundTrip` | brandy/brandy-2.0/spl-pub/include/openssl/asn1_mac.h:19-507 | for every type of any depth whose field lists have no clashing tags, and every value it can encode, decoding restores the value and stops at the end, and the announced size is right |
| `Asn1Schema.CodecMeans` | brandy/brandy-2.0/spl-pub/include/openssl/asn1_mac.h:19-507 | which values a type can encode, and as what: items as their codec does, sequences as the macros do |
| `Asn1Schema.FieldsAt` | brandy/brandy-2.0/spl-pub/include/openssl/asn1_mac.h:72-470 | the fields of a sequence type, with their tagging and their own types |
| `Asn1Examples.StoredOctets` | brandy/brandy-2.0/spl-pub/include/openssl/asn1_mac.h:494-498 | an example: the INTEGER 5 in a SEQUENCE is stored as 30 03 02 01 05 |
| `Asn1Examples.LeftOverOctets` | brandy/brandy-2.0/spl-pub/include/openssl/asn1_mac.h:35-37 | an example of refused input: octets left over in a definite SEQUENCE |
| `Asn1Examples.NoEndOfContents` | brandy/brandy-2.0/spl-pub/include/openssl/asn1_mac.h:229-235 | an example of refused input: an indefinite wrapper without end-of-contents octets |
| `Asn1Examples.OtherTag` | brandy/brandy-2.0/spl-pub/include/openssl/asn1_mac.h:73-77 | an example of refused input: another universal tag where a plain item is due |
| `FdtMove.FdtMemmove` | brandy/brandy-2.0/spl-pub/include/libfdt.h:204-225 | for every overlap, memory afterwards is the old memory with the old source bytes at dest |
| `FdtMove.MovedRegions` | brandy/brandy-2.0/spl-pub/include/libfdt.h:204-225 | which is: dest holds the old source bytes and no other byte changed |
| `FdtMove.CopyUpIsSafe` | brandy/brandy-2.0/spl-pub/include/libfdt.h:209-216 | the upward loop is right for all memories exactly when dest is not inside the later source, so the choice of direction is needed |
| `FdtMove.CopyDownIsSafe` | brandy/brandy-2.0/spl-pub/include/libfdt.h:217-222 | the downward loop is right exactly under the mirrored condition |
| `EcbCipher.EcbCipher` | brandy/brandy-2.0/spl-pub/include/openssl/evp_locl.h:2-15 | for every 32-bit length and block size the loop ends, stays within the whole blocks of both regions and enciphers block after block |
| `EcbCipher.RunIsEcb` | brandy/brandy-2.0/spl-pub/include/openssl/evp_locl.h:2-15 | where the placement is safe, the output is the ECB encryption of the old input's whole blocks and every other byte is untouched; the regions need room for the whole blocks only |
| `EcbCipher.SafeIsExact` | brandy/brandy-2.0/spl-pub/include/openssl/evp_locl.h:7-13 | the placement condition is exact: elsewhere even the identity cipher damages some memory |
| `EcbCipher.EcbInverse` | brandy/brandy-2.0/spl-pub/include/openssl/evp_locl.h:9-15 | deciphering restores the whole blocks |
| `EcbCipher.InPlaceRoundTrip` | brandy/brandy-2.0/spl-pub/include/openssl/evp_locl.h:9-15 | enciphering and deciphering in place restores the whole memory |
| `EcbCipher.FullIsWholeBlocks` | brandy/brandy-2.0/spl-pub/include/openssl/evp_locl.h:4-7 | the bytes processed are inl / bl blocks |
| `FdSet.DescriptorSet.Add` | brandy/brandy-2.0/spl-pub/include/asm/posix_types.h:58-59 | adds exactly this descriptor to the set |
| `FdSet.DescriptorSet.Remove` | brandy/brandy-2.0/spl-pub/include/asm/posix_types.h:62-63 | removes exactly this descriptor |
| `FdSet.DescriptorSet.IsSet` | brandy/brandy-2.0/spl-pub/include/asm/posix_types.h:66-67 | answers membership |
| `FdSet.DescriptorSet.Clear` | brandy/brandy-2.0/spl-pub/include/asm/posix_types.h:70-71 | leaves the empty set |
| `FdSet.OneBitChanges` | brandy/brandy-2.0/spl-pub/include/asm/posix_types.h:58-63 | setting or clearing one bit changes the membership of one descriptor among 1024 |
| `FdSet.DescriptorSet.Perform` | brandy/brandy-2.0/spl-pub/include/asm/posix_types.h:57-71 | after any sequence of operations the bits are the set it builds |
| `FdSet.LastOperationDecides` | brandy/brandy-2.0/spl-pub/include/asm/posix_types.h:57-71 | a descriptor is in that set exactly when the last operation concerning it set it |
| `Align.DivisionForms` | brandy/brandy-2.0/spl-pub/include/linux/kernel.h:59-84 | `rounddown` always rounds down; `roundup` and `DIV_ROUND_UP` are right exactly when their sum does not wrap |
| `Align.MaskRoundsDown` | brandy/brandy-2.0/spl-pub/include/linux/kernel.h:54-56 | `round_down` equals `rounddown` for every power of two |
| `Align.RoundingFormsAgree` | brandy/brandy-2.0/spl-pub/include/cache_align.h:63-65 | `ROUND`, `ALIGN`, `round_up` and `roundup` agree for every power of two and every word, wrapped ones included |
| `Align.RoundsUpExactly` | brandy/brandy-2.0/spl-pub/include/linux/kernel.h:55 | they give the least multiple not below x exactly where that is a word |
| `Align.MaskFormsByBits` | brandy/brandy-2.0/spl-pub/include/linux/kernel.h:54-56 | the mask forms for any mask, power of two or not, bit by bit |
| `Align.LargestWordWraps` | brandy/brandy-2.0/spl-pub/include/linux/kernel.h:54-77 | a failing input: 0xffff_ffff rounded up to an even word is 0 in all four forms |
| `Align.AlignedBuffer` | brandy/brandy-2.0/spl-pub/include/cache_align.h:69-75 | the pointer is aligned and its region lies in the raw array, is a multiple of the alignment, and holds the padded elements |
| `Align.PadSizeIsCeiling` | brandy/brandy-2.0/spl-pub/include/cache_align.h:69-70 | `PAD_SIZE` of any size but 0 is the least multiple of the pad not below it, cut to 32 bits |
| `Fractions.MultFracIsExact` | brandy/brandy-2.0/spl-pub/include/linux/kernel.h:106-112 | the scaled value is exact precisely when the result and the remainder's product are words, even if x * numer is not |
| `Fractions.MultFracLoses` | brandy/brandy-2.0/spl-pub/include/linux/kernel.h:106-112 | in general it scales x * numer less the whole words of the remainder's product, cut to 32 bits |
| `Fractions.SignedSplit` | brandy/brandy-2.0/spl-pub/include/linux/kernel.h:106-112 | with truncating division the split into quotient and remainder loses nothing, for operands and divisors of any sign |
| `Fractions.SignedMultFracIsExact` | brandy/brandy-2.0/spl-pub/include/linux/kernel.h:106-112 | on ints of any sign the value is exact precisely when the result and the remainder's product are ints; no other step then overflows but INT_MIN / -1 |
| `Fractions.MultFracWraps` | brandy/brandy-2.0/spl-pub/include/linux/kernel.h:106-112 | a failing input: 2^16 scaled by 2^16 / 2^17 gives 0, unsigned and signed |
| `Fractions.ClosestUnsigned` | brandy/brandy-2.0/spl-pub/include/linux/kernel.h:91-100 | the closest integer, with ties upwards, exactly when adding half the divisor does not wrap; otherwise 0 |
| `Fractions.ClosestOfHalves` | brandy/brandy-2.0/spl-pub/include/linux/kernel.h:91-100 | examples: 5 / 2 is rounded to 3 and 1 / 2 to 1 |
| `Fractions.ClosestSigned` | brandy/brandy-2.0/spl-pub/include/linux/kernel.h:91-100 | the closest integer, with ties away from zero, exactly when adding (or subtracting) half the divisor does not overflow |
| `Fractions.ClosestOfIntMax` | brandy/brandy-2.0/spl-pub/include/linux/kernel.h:91-100 | a failing input: INT_MAX divided by 2 gives -2^30 |
| `Fractions.ClosestIsOdd` | brandy/brandy-2.0/spl-pub/include/linux/kernel.h:91-100 | there it is odd in x |
| `JumpInstruction.JalReachesEndOfHead` | brandy/brandy-2.0/spl-pub/fes/main/fes1_head.c:10-21 | the word is a plain JAL whose decoded offset is the head size exactly for even sizes below 2^20 |
| `JumpInstruction.BranchReachesEndOfHead` | brandy/brandy-2.0/spl-pub/fes/main/fes1_head.c:22-25 | the word is an unconditional branch to the word after the head exactly for 5 to 2^25 + 4 bytes |
| `JumpInstruction.BranchByBits` | brandy/brandy-2.0/spl-pub/fes/main/fes1_head.c:22-25 | every bit of the instruction, for every size: the word count or the opcode |
| `JumpInstruction.BranchCount` | brandy/brandy-2.0/spl-pub/fes/main/fes1_head.c:22-25 | the word count for every size, wrapped ones included |
| `JumpInstruction.SmallHeadIsNoBranch` | brandy/brandy-2.0/spl-pub/fes/main/fes1_head.c:22-25 | failing inputs: for heads of 1 to 4 bytes the instruction is all ones |
| `JumpInstruction.DocumentedBranchReachesEndOfHead` | brandy/brandy-2.0/spl-pub/fes/main/fes1_head.c:110-116 | with the mask the comment describes, smaller heads work as well |

## Left out

- Register maps, clocks, DRAM and board configuration headers: constants and hardware addresses.
- The rest of `libfdt.h`, `bn_div_words`, Montgomery and recursive multiplication, EC and X.509: only prototypes are in the repository.
- `bn_sqr_words` and `bn_sqr_normal`: declared only, and the `sqr` step they use is covered.
- `bn_expand2`, `BN_set_word` and allocation: bodies are not in the repository; `bn_expand` is modelled by its word count and its test.
- `bn_pollute` of the BN_DEBUG build: it fills unused words with random bytes.
- 64-bit, 16-bit and 8-bit word configurations of `bn.h`.
- The SET OF and STRING variants of the ASN.1 macros: the same cursor steps with another callee.
- `M_ASN1_D2I_get_x` and `M_ASN1_D2I_get_int`: they differ from `M_ASN1_D2I_get` only in the callee's type.
- Error codes, line numbers and memory release at the ASN.1 error label.
- Overflow of C's `int` in the length pass: the size of the whole encoding is required to be below 2^31.
- `DIV_ROUND_CLOSEST` with a negative divisor, which the header declares undefined.
- `BnWords.MulAddRow`: operand arrays are either distinct or the same row; overlap at a shifted position is not modelled.
- The OFB, CBC and CFB wrappers of `evp_locl.h`: they only forward to callees.
- `__FD_SET` on a 64-bit `unsigned long`, where the signed shift would extend the sign.
- The other fields of the boot head: constants.
- `swap`, `min`, `max`, `clamp`, `abs` and the 64-bit division macros of `linux/kernel.h`: easy members.
