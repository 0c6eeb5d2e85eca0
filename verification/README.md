# Verified models of the vendored algorithms

This project models four self-contained algorithms from the headers under `3rdparty/include` and
proves what they compute.

* **CRC** (`boost/crc.hpp`). `Words` models unsigned words of any fixed width as bit sequences, so that
  shifting, truncation and the uncleared bits above the register are explicit. `CrcRemainder.Run` says
  what a register of n bits holds after a message. The bit-serial computer (`CrcBasic`), the lookup table
  and the table-driven computer (`CrcTable`, `CrcOptimal`) and the augmented-message form are imperative
  and proved against it, for every width, polynomial, start, final value and both reflection flags.
  `CrcResidue` says what a checksum is bit by bit and what it leaves behind its own message.
  `Gf2` and `CrcDivision` show that this register is the remainder of polynomial division over GF(2),
  and `CrcErrors` gives, for every polynomial, the width up to which every burst error is noticed.
* **Integers and rationals** (`boost/integer/common_factor_rt.hpp`, `boost/rational.hpp`). `Gcd` is defined
  as the common divisor that every common divisor divides; the mixed binary, Stein and Euclid loops are
  proved to compute it. `Rational` is a class changed in place over an integer type that may be bounded:
  `IntType.Fit` marks an intermediate value and can only be applied to a value of the type, so each
  method also proves that nothing on the way leaves the type; where that can happen it is an outcome of
  the method, or excluded by a stated condition. A type is unbounded, unsigned, two's complement (maybe
  narrower than the type its remainders are taken in), or symmetric: values of a wider type that are
  confined to [-M, M].
* **Tokenizers** (`boost/token_functions.hpp`, `boost/token_iterator.hpp`). The escaped-list parser and the
  delimiter splitter are classes whose call operator is proved against a function of its state;
  `TokenIterator` drives either, and `Tokenize` is the token sequence of a whole iteration. What a call
  returns position by position, writing and reading back, the fields between delimiters, and the effect of a used separator are lemmas about it.
* **Blob offsets** (`caffe/blob.hpp`). Row-major addressing for any number of axes, with failed checks as
  an outcome.

Seven places where the code does less than one might expect, each with its exact condition:

* Bursts are all noticed up to the width of the register less the trailing zeros of the truncated
  polynomial, and one of the next width is missed (`CrcErrors.DetectsBurstsUpTo`). That is the whole
  width exactly for odd polynomials; the named `crc_xmodem_type` has an even one and stops at 13 bits of
  its 16 (`NamedParameterSets`).
* `escaped_list_separator` reads back every list but one that an escaping writer wrote if and only if its
  special characters are kept apart and none is the letter n (`EscapedRoundTrip.RoundTripIff`,
  `PlainRoundTripIff`). The one is the lone empty plain field: it is written as nothing and read as no
  field by every parser (`WrittenAsNothing`, `LoneEmptyIsLost`).
* `char_separator::reset` does not clear its flag, so a used separator omits a leading empty token exactly
  when the input starts with a delimiter (`SplitFields.UsedSeparator`).
* Division computes a quotient exactly when `QuotientFitsIn` holds: otherwise one of its steps leaves the
  type (`DivAssign`, `DivInteger`, `QuotientSteps`). The comment in the source promises that it avoids
  overflow, and for symmetric ranges every quotient that fits is computed (`SymmetricTypesDivide`). Over a
  two's complement type the fitting quotients that are not computed are those of the least value by the
  least value as numerators, and those by a negative divisor whose own numerator is the least value
  (`DivisionDecided`); half of the range over -1/2 is one (`TwosComplementMayNot`).
* A sum or difference over a bounded type is computed exactly when `SumFitsIn` or `DifferenceFitsIn` holds
  (`AddAssign`, `SubAssign`, `SumSteps`, `DifferenceSteps`): besides room for the result, over the least
  common denominator the sum of two terms of one sign has to fit, and of terms of opposite signs each. The
  comment in the source promises that overflow is avoided. That holds for one sign over coprime denominators
  and for opposite signs over equal ones (`CoprimeDenominatorsAdd`, `EqualDenominatorsAdd`), but not for
  every sum that fits (`SumMayNotFit`, `OppositeTermsMayNotFit`).
* Normalization gives the right value unless the denominator is zero, or it is negative and one of the two
  parts, which are coprime or equal, is the least value of a two's complement type (`NormalizesExactly`,
  `NormalizationDecided`). Turning the sign of the least value leaves it as it is: as a denominator that is
  caught, but as a numerator it gives the negated value without an exception (`TurnsOneSign`,
  `NormalizationMayFail`). Division tests nothing after turning its signs, so there the step counts as
  leaving the type.
* The four-argument blob offset accepts indices that name no element: one past the end of the first axis,
  whose offset is the count, and negative ones (`FourOffsetTakesTheCount`, `FourOffsetGoesNegative`). It
  addresses the element with the given indices exactly when all of them are in range
  (`FourOffsetAddresses`).

Every lemma carries `{:induction false}`: the proofs are the written ones, and none relies on induction
hypotheses supplied by the verifier.

## Model

| member | source | states |
|---|---|---|
| Words.Reflect | 3rdparty/include/boost/crc.hpp:306-326 | the loop mirrors the low bits of a wider word and leaves zeros above them |
| Words.ReverseInvolution | 3rdparty/include/boost/crc.hpp:306-326 | mirroring twice gives the word back |
| CrcBasicModule.CrcBasic.ProcessBit | 3rdparty/include/boost/crc.hpp:726-751 | on the low Bits bits, one step of division, whatever the uncleared bits above hold |
| CrcBasicModule.CrcBasic.ProcessBits | 3rdparty/include/boost/crc.hpp:753-770 | feeds the low bits of a byte, highest first, and no others |
| CrcBasicModule.CrcBasic.ProcessByte | 3rdparty/include/boost/crc.hpp:772-782 | eight steps in the order that input reflection selects |
| CrcBasicModule.CrcBasic.ProcessBlock | 3rdparty/include/boost/crc.hpp:784-797 | the register after a block is Run of the message bits from the register before |
| CrcBasicModule.CrcBasic.GetInterimRemainder | 3rdparty/include/boost/crc.hpp:696-703 | the register with zeros above it |
| CrcBasicModule.CrcBasic.ResetTo | 3rdparty/include/boost/crc.hpp:705-716 | the register becomes the low bits of the argument |
| CrcBasicModule.CrcBasic.Checksum | 3rdparty/include/boost/crc.hpp:814-823 | the register, mirrored if asked, combined with the final value, zeros above |
| CrcRemainder.WideStep | 3rdparty/include/boost/crc.hpp:735-750 | bits above the register never reach it |
| CrcRemainder.RunLinear | 3rdparty/include/boost/crc.hpp:730-770 | remainders are linear over GF(2) in start and message together |
| CrcRemainder.RunByShiftAndLookup | 3rdparty/include/boost/crc.hpp:957-965 | k steps are a shift by k plus the zero-started remainder of message bits combined with the top bits, for every k including k above the width |
| CrcRemainder.RunOfSplitMessage | 3rdparty/include/boost/crc.hpp:784-797 | a message may be processed in two blocks |
| CrcOptimalModule.CrcTable.Divide | 3rdparty/include/boost/crc.hpp:507-528 | the inner loop computes the zero-started remainder of the dividend |
| CrcOptimalModule.CrcTable.InitTable | 3rdparty/include/boost/crc.hpp:488-536 | every one of the 256 entries, at reflected positions when reflected, holds its byte's remainder; a second call changes nothing |
| CrcOptimalModule.CrcTable.Store | 3rdparty/include/boost/crc.hpp:505-532 | one entry is computed and stored, and no entry stored before is lost |
| CrcOptimalModule.CrcTable.SlotInjective | 3rdparty/include/boost/crc.hpp:530-531 | no two dividends are stored in one slot |
| CrcComputer.IndexIsTop | 3rdparty/include/boost/crc.hpp:546-559 | the table index of an unreflected register is the byte combined with the register's top bits, also below eight bits |
| CrcComputer.ReflectedIndexIsTop | 3rdparty/include/boost/crc.hpp:576-578 | the same for a mirrored register |
| CrcComputer.LookupStep | 3rdparty/include/boost/crc.hpp:962-964 | one lookup on a register with arbitrary high bits is the eight steps of the byte |
| CrcComputer.ReflectedLookupStep | 3rdparty/include/boost/crc.hpp:962-964 | one lookup on a mirrored register is the mirrored result of the eight steps, with clean high bits |
| CrcComputer.CrcOptimal.constructor | 3rdparty/include/boost/crc.hpp:832-843 | starts from the given remainder and fills the shared table at most once |
| CrcComputer.CrcOptimal.ProcessBlock | 3rdparty/include/boost/crc.hpp:944-966 | the same specification as the bit-serial ProcessBlock |
| CrcComputer.CrcOptimal.ProcessByte | 3rdparty/include/boost/crc.hpp:931-942 | a block of one byte |
| CrcComputer.CrcOptimal.GetInterimRemainder | 3rdparty/include/boost/crc.hpp:905-916 | the remainder unreflected again, zeros above |
| CrcComputer.CrcOptimal.Reset | 3rdparty/include/boost/crc.hpp:918-929 | the remainder becomes the low bits of the argument, in either stored form |
| CrcComputer.CrcOptimal.Checksum | 3rdparty/include/boost/crc.hpp:984-995 | the same output as the bit-serial Checksum, although reflection is decided differently |
| CrcAgreement.BothComputers | 3rdparty/include/boost/crc.hpp:133-276 | for every setting and message, with different word widths and high bits, both computers give one checksum and one interim remainder |
| CrcAgreement.Crc | 3rdparty/include/boost/crc.hpp:1023-1040 | the function template returns the checksum of the buffer |
| CrcAgreement.Resume | 3rdparty/include/boost/crc.hpp:832-843 | a run continued from a saved interim remainder, in a new or a reset computer, ends with the checksum of the whole |
| CrcResidue.MessageBitAt | 3rdparty/include/boost/crc.hpp:772-797 | which bit of which byte is fed at each place of a message, for both values of the input flag |
| CrcResidue.ChecksumBit | 3rdparty/include/boost/crc.hpp:814-823 | each bit of a checksum is the remainder's, mirrored if asked, combined with the final value's, for every pair of flags |
| CrcResidue.BitsOfWordBytes | 3rdparty/include/boost/crc.hpp:772-797 | the bytes of a word, low byte first when reflected, else high byte first, are fed as its bits |
| CrcResidue.ChecksumLeavesResidue | 3rdparty/include/boost/crc.hpp:814-823 | with equal flags and whole bytes, a message followed by its own checksum leaves the remainder of the final value alone, whatever the message and the start |
| CrcResidue.OnlyChecksumLeavesResidue | 3rdparty/include/boost/crc.hpp:814-823 | with an odd polynomial no other word behind the message leaves it |
| Gf2.RemainderUnique | 3rdparty/include/boost/crc.hpp:730-751 | a residue class of polynomials has one member of degree below the divisor's |
| CrcDivision.RunIsCongruent | 3rdparty/include/boost/crc.hpp:730-770 | the register is congruent to start times x^n plus message times x^Bits |
| CrcDivision.RunIsTheRemainder | 3rdparty/include/boost/crc.hpp:730-770 | a word of the register's width is the register if and only if it is so congruent |
| CrcAugmented.AugRunIsCongruent | 3rdparty/include/boost/crc.hpp:1066-1073 | the augmented register is congruent to start times x^n plus message |
| CrcAugmented.ZeroesMakeItPlain | 3rdparty/include/boost/crc.hpp:1044-1076 | Bits appended zeros turn the augmented form into the plain one, for every start |
| CrcAugmented.CheckWord | 3rdparty/include/boost/crc.hpp:1044-1076 | any word in place of the zeros adds itself to the result, so exactly the remainder gives zero |
| CrcAugmentedBuffer.AugmentedTableStep | 3rdparty/include/boost/crc.hpp:1069-1072 | one table step is eight augmented bit steps, on words wider than the register |
| CrcAugmentedBuffer.AugmentedCrc | 3rdparty/include/boost/crc.hpp:1044-1076 | the loop over bytes computes the augmented remainder |
| CrcAugmentedBuffer.ZeroBytesMakeItPlain | 3rdparty/include/boost/crc.hpp:1044-1076 | with Bits/8 zero bytes behind it a message has its unreflected CRC as result |
| CrcAugmentedBuffer.RemainderInPlace | 3rdparty/include/boost/crc.hpp:1044-1076 | the result is zero if and only if the bytes behind the message are that CRC, high byte first |
| CrcAugmentedBuffer.AppendRemainder | 3rdparty/include/boost/crc.hpp:1044-1095 | computing, appending and checking yields zero for every start |
| CrcErrors.StepUnstep | 3rdparty/include/boost/crc.hpp:730-751 | with an odd polynomial a step has a two-sided inverse |
| CrcErrors.StepInjectiveIffOdd | 3rdparty/include/boost/crc.hpp:730-751 | a step loses no information if and only if the polynomial is odd |
| CrcErrors.BurstChangesRemainder | 3rdparty/include/boost/crc.hpp:730-770 | a difference confined to a window of Bits bits less the polynomial's trailing zeros changes the remainder |
| CrcErrors.DivisorBurstLeavesNothing | 3rdparty/include/boost/crc.hpp:730-770 | the divisor without its trailing zeros, fed as a burst, leaves a zero register zero |
| CrcErrors.DetectsBurstsUpTo | 3rdparty/include/boost/crc.hpp:730-823 | all differences within a window of a given width change the checksum if and only if the width plus the polynomial's trailing zeros is at most Bits |
| CrcErrors.DetectsBurstsIffOdd | 3rdparty/include/boost/crc.hpp:730-823 | all differences as wide as the register change the checksum if and only if the polynomial is odd |
| CrcErrors.NamedParameterSets | 3rdparty/include/boost/crc.hpp:93-98 | the exact widths of the four named computers: 16, 16, 13 and 32 bits |
| NumberTheory.Bezout | 3rdparty/include/boost/rational.hpp:492-509 | the gcd is an integer combination of its arguments |
| NumberTheory.EuclidLemma | 3rdparty/include/boost/rational.hpp:492-509 | a number coprime to one factor of a multiple divides the other |
| IntegerGcd.GcdOfOddParts | 3rdparty/include/boost/integer/common_factor_rt.hpp:344 | powers of two can be taken out of both arguments and the smaller put back |
| IntegerGcd.MakeOdd | 3rdparty/include/boost/integer/common_factor_rt.hpp:129-142 | splits a positive number into its odd part and a power of two |
| IntegerGcd.MixedLoop | 3rdparty/include/boost/integer/common_factor_rt.hpp:346-359 | the mixed binary loop ends with the shifted gcd |
| IntegerGcd.MixedBinaryGcd | 3rdparty/include/boost/integer/common_factor_rt.hpp:331-360 | returns the gcd |
| IntegerGcd.SteinGcd | 3rdparty/include/boost/integer/common_factor_rt.hpp:366-389 | returns the gcd |
| IntegerGcd.EuclidGcd | 3rdparty/include/boost/integer/common_factor_rt.hpp:397-406 | returns the gcd |
| IntegerGcd.IntGcd | 3rdparty/include/boost/integer/common_factor_rt.hpp:444-452 | the gcd for all signs over every component type; defined exactly off the least value's clashes with 0, itself and, unless the type is narrow, -1 |
| IntegerGcd.GcdFits | 3rdparty/include/boost/integer/common_factor_rt.hpp:444-452 | where it is defined, the gcd is a value of the type |
| IntegerGcd.GcdDecided | 3rdparty/include/boost/integer/common_factor_rt.hpp:444-452 | the gcd is defined exactly when the type can hold it and the remainder of the least value by -1 is not asked for |
| IntegerGcd.IntLcm | 3rdparty/include/boost/integer/common_factor_rt.hpp:430-458 | a common multiple that divides every common multiple, defined exactly when the absolute values and the result are values of the type |
| IntegerGcd.LcmDecided | 3rdparty/include/boost/integer/common_factor_rt.hpp:430-458 | there is a result exactly when the type can hold the absolute values and some common multiple, zero counting only next to a zero |
| Fractions.NormalUnique | 3rdparty/include/boost/rational.hpp:823-828 | fractions in lowest terms are equal if and only if their parts are |
| Fractions.ReduceSum | 3rdparty/include/boost/rational.hpp:492-519 | reducing by what the new numerator shares with the denominators' gcd is a full reduction of the sum |
| Fractions.CrossCancel | 3rdparty/include/boost/rational.hpp:550-554 | cancelling crosswise leaves the product in lowest terms |
| Fractions.QuotientsDecide | 3rdparty/include/boost/rational.hpp:776-782 | different floor quotients decide the order |
| Fractions.RemaindersDecide | 3rdparty/include/boost/rational.hpp:784-796 | equal quotients pass the comparison to the remainders, and by reciprocals in the opposite sense |
| RationalModule.Rational.Normalize | 3rdparty/include/boost/rational.hpp:838-878 | lowest terms with the same value exactly when NormalizesExactly holds; which inputs give each exception, an undefined gcd, or a value with the wrong sign |
| RationalModule.NormalizationDecided | 3rdparty/include/boost/rational.hpp:850-875 | that condition on the two parts and the least value holds if and only if the reduced parts fit and the parts are not both the least value |
| RationalModule.NormalizationMayFail | 3rdparty/include/boost/rational.hpp:864-875 | inputs for each failure in every two's complement type |
| RationalModule.ReducedForm | 3rdparty/include/boost/rational.hpp:854-873 | what dividing and turning signs gives, and when the type can hold it |
| RationalModule.Rational.AddAssign | 3rdparty/include/boost/rational.hpp:489-522 | the exact sum in lowest terms, also when added to itself, if and only if SumFitsIn holds, else a step leaves the type |
| RationalModule.Rational.SubAssign | 3rdparty/include/boost/rational.hpp:524-541 | the exact difference in lowest terms if and only if DifferenceFitsIn holds, else a step leaves the type |
| RationalModule.SumSteps | 3rdparty/include/boost/rational.hpp:511-519 | every value the code computes is one of the type if and only if the reduced sum is, and the added terms are: their sum when the numerators have one sign, each of them otherwise |
| RationalModule.DifferenceSteps | 3rdparty/include/boost/rational.hpp:533-538 | the same for a difference, with the sign of the second numerator turned |
| RationalModule.CoprimeDenominatorsAdd | 3rdparty/include/boost/rational.hpp:511-519 | with coprime denominators, a sum of numbers of one sign is computed if and only if it fits |
| RationalModule.EqualDenominatorsAdd | 3rdparty/include/boost/rational.hpp:511-519 | with equal denominators every sum of numbers of opposite signs is computed |
| RationalModule.SumMayNotFit | 3rdparty/include/boost/rational.hpp:511-519 | in every type with a greatest value above 2, a fitting sum of equal numbers, and a fitting difference of opposite ones, is not computed |
| RationalModule.OppositeTermsMayNotFit | 3rdparty/include/boost/rational.hpp:511-519 | in every type with a greatest value from 4 on, a fitting sum of numbers of opposite signs, and a fitting difference, is not computed |
| RationalModule.Rational.MulAssign | 3rdparty/include/boost/rational.hpp:543-556 | the exact product in lowest terms if and only if it fits: no intermediate needs more room than operands and result |
| RationalModule.ProductSteps | 3rdparty/include/boost/rational.hpp:550-554 | the two parts computed are the reduced product, and fit if and only if it does |
| RationalModule.Rational.DivAssign | 3rdparty/include/boost/rational.hpp:558-585 | the exact quotient in lowest terms if and only if QuotientFitsIn holds, else a step leaves the type; zero is refused as a divisor and left alone as a dividend, with nothing changed |
| RationalModule.Rational.MulInteger | 3rdparty/include/boost/rational.hpp:278-286 | the same for an integer factor |
| RationalModule.Rational.DivInteger | 3rdparty/include/boost/rational.hpp:287-307 | the same for an integer divisor |
| RationalModule.QuotientSteps | 3rdparty/include/boost/rational.hpp:575-583 | QuotientFitsIn, a condition on the values, holds if and only if every value the code computes is one of the type |
| RationalModule.DivisionDecided | 3rdparty/include/boost/rational.hpp:575-583 | a quotient that fits is computed unless the type is two's complement and both numerators are its least value, or the divisor is negative and the quotient's numerator is the least value |
| RationalModule.SymmetricTypesDivide | 3rdparty/include/boost/rational.hpp:575-583 | with values confined to a symmetric range, a quotient that fits can be computed |
| RationalModule.TwosComplementMayNot | 3rdparty/include/boost/rational.hpp:575-583 | for every two's complement type, half its range over -1/2 fits but the multiplied numerator does not |
| RationalModule.QuotientHasGcd | 3rdparty/include/boost/rational.hpp:576-577 | integer::gcd is defined wherever a fitting quotient asks for it |
| RationalModule.ZeroDivides | 3rdparty/include/boost/rational.hpp:571-572 | zero over anything is computed in every type |
| RationalModule.Rational.FirstTerm | 3rdparty/include/boost/rational.hpp:754-770 | floor quotient and remainder, made up from the truncated ones inside the type |
| RationalModule.Rational.LessThan | 3rdparty/include/boost/rational.hpp:738-821 | the continued-fraction comparison is the order of the values, terminates, and keeps every term inside the type |
| RationalModule.Rational.GreaterThan | 3rdparty/include/boost/rational.hpp:348 | the converse order |
| RationalModule.Rational.Equals | 3rdparty/include/boost/rational.hpp:823-828 | comparing the parts decides equality of the values |
| RationalModule.Rational.Compare | 3rdparty/include/boost/rational.hpp:347-350 | exactly one of less, equal and greater holds for every pair |
| RationalModule.Rational.LessThanInteger | 3rdparty/include/boost/rational.hpp:352-368 | the floor quotient decides the order against an integer |
| RationalModule.Rational.GreaterThanInteger | 3rdparty/include/boost/rational.hpp:369-373 | the converse against an integer |
| RationalModule.Rational.EqualsInteger | 3rdparty/include/boost/rational.hpp:374-378 | equality with an integer |
| RationalGcd.GcdEvaluator | 3rdparty/include/boost/rational.hpp:970-982 | numerator gcd over denominator lcm, already in lowest terms, exactly when both are defined in the type |
| RationalGcd.LcmEvaluator | 3rdparty/include/boost/rational.hpp:984-996 | numerator lcm over denominator gcd, already in lowest terms, exactly when the lcm is defined in the type |
| RationalGcd.GcdDividesBoth | 3rdparty/include/boost/rational.hpp:974-981 | both numbers are whole multiples of their gcd |
| RationalGcd.GcdIsGreatestRational | 3rdparty/include/boost/rational.hpp:974-981 | the gcd is a whole multiple of every rational common divisor |
| RationalGcd.LcmIsMultipleOfBoth | 3rdparty/include/boost/rational.hpp:988-995 | the lcm is a whole multiple of both numbers |
| RationalGcd.LcmIsLeastRational | 3rdparty/include/boost/rational.hpp:988-995 | every rational common multiple is a whole multiple of the lcm |
| RationalGcd.GcdTimesLcm | 3rdparty/include/boost/rational.hpp:970-996 | gcd times lcm is the absolute product |
| EscapedList.EscapedListSeparator.DoEscape | 3rdparty/include/boost/token_functions.hpp:126-148 | newline for n, the character itself for any special one, and both exceptions |
| EscapedList.EscapedListSeparator.Apply | 3rdparty/include/boost/token_functions.hpp:161-198 | one call: token, position and flag after it, end, or exception |
| EscapedList.Call | 3rdparty/include/boost/token_functions.hpp:161-198 | every token decreases twice the remaining input plus the owed token |
| EscapedTokens.CallDecided | 3rdparty/include/boost/token_functions.hpp:161-198 | for any input: the first separator outside quotes or the first bad escape decides the call, else the end of the input does; the token is what the positions before it add |
| EscapedTokens.UnescapedToken | 3rdparty/include/boost/token_functions.hpp:190-192 | in a text without escapes the token reaches to the first separator with an even number of quotes before it, or to the end, with all quotes taken out |
| CharSeparatorModule.CharSeparator.Apply | 3rdparty/include/boost/token_functions.hpp:458-528 | one call; assigning from positions and appending characters give the same token |
| CharSeparatorModule.CharSeparator.ApplyDropping | 3rdparty/include/boost/token_functions.hpp:469-490 | the call when empty tokens are dropped, which leaves the flag alone |
| CharSeparatorModule.CharSeparator.ApplyKeeping | 3rdparty/include/boost/token_functions.hpp:491-527 | the call when empty tokens are kept, with the flag after it |
| CharSeparatorModule.CharSeparator.FromStrings | 3rdparty/include/boost/token_functions.hpp:433-446 | exactly the characters of the two strings are dropped and kept |
| CharSeparatorModule.CharSeparator.Default | 3rdparty/include/boost/token_functions.hpp:448-454 | without arguments spaces are dropped and punctuation is kept |
| CharSeparatorModule.CharSeparator.AppendRun | 3rdparty/include/boost/token_functions.hpp:278-307 | the run up to the next delimiter, appended or left for the final assignment |
| CharSeparatorModule.Call | 3rdparty/include/boost/token_functions.hpp:491-527 | every token decreases twice the remaining input plus the owed token, also where it takes no input |
| TokenIteratorModule.Tokens | 3rdparty/include/boost/token_iterator.hpp:53-75 | iteration ends within the measure |
| TokenIteratorModule.TokenCounts | 3rdparty/include/boost/token_iterator.hpp:53-75 | at most n+1 tokens of an escaped list, at most 2n+1 of a fresh splitter |
| TokenIteratorModule.TokenIterator.Initialize | 3rdparty/include/boost/token_iterator.hpp:70-75 | stands on the first token of the whole sequence, which is empty for empty input |
| TokenIteratorModule.TokenIterator.Increment | 3rdparty/include/boost/token_iterator.hpp:53-56 | moves to the next token of the sequence or reports the exception |
| TokenIteratorModule.CollectAll | 3rdparty/include/boost/token_iterator.hpp:53-100 | visiting all tokens yields exactly Tokenize, nothing for an empty input, and leaves the caller's function object alone |
| EscapedRoundTrip.TokensOfList | 3rdparty/include/boost/token_functions.hpp:161-198 | from any position where the rest is a written list, the tokens are its texts |
| EscapedRoundTrip.ReadableRoundTrips | 3rdparty/include/boost/token_functions.hpp:79-87 | under the condition, a written list of plain and quoted fields is read back if and only if it is not the lone empty plain field |
| EscapedRoundTrip.WrittenAsNothing | 3rdparty/include/boost/token_functions.hpp:161-198 | only the lone empty plain field is written as an empty string |
| EscapedRoundTrip.LoneEmptyIsLost | 3rdparty/include/boost/token_iterator.hpp:70-75 | no parser reads that field back |
| EscapedRoundTrip.PlainRoundTripIff | 3rdparty/include/boost/token_functions.hpp:126-198 | all other plain lists are read back if and only if the separator is no escape and n is not special |
| EscapedRoundTrip.RoundTripIff | 3rdparty/include/boost/token_functions.hpp:126-198 | all other mixed lists are read back if and only if, besides, the quote is neither escape nor separator |
| EscapedRoundTrip.SingleCharacters | 3rdparty/include/boost/token_functions.hpp:152-154 | with one character of each kind: distinct and none of them n |
| SplitFields.KeepEmptyTokens | 3rdparty/include/boost/token_functions.hpp:491-527 | exactly the fields between delimiters, one more than delimiters plus kept delimiters |
| SplitFields.KeepTokenKinds | 3rdparty/include/boost/token_functions.hpp:491-527 | every token is one kept delimiter or holds no delimiter, and the former are all the kept delimiters of the input in order |
| SplitFields.KeepTokenAt | 3rdparty/include/boost/token_functions.hpp:491-527 | the stretch between two neighbouring delimiters is the token at a place given by counting delimiters, and a kept delimiter is the token behind it |
| SplitFields.FieldsConcat | 3rdparty/include/boost/token_functions.hpp:491-527 | joined together the fields are the input without its dropped delimiters |
| SplitFields.SplitJoin | 3rdparty/include/boost/token_functions.hpp:491-527 | with one dropped delimiter, joining undoes splitting |
| SplitFields.UsedSeparator | 3rdparty/include/boost/token_functions.hpp:456 | what a separator that was not reset leaves out |
| SplitFields.DropEmptyTokens | 3rdparty/include/boost/token_functions.hpp:469-490 | tokens are non-empty, kept delimiters or maximal runs in order, and lose only the dropped characters |
| BlobModule.Blob.CanonicalAxisIndex | 3rdparty/include/caffe/blob.hpp:107-129 | the axis congruent to the index, or death exactly outside the range from minus the number of axes up |
| BlobModule.Blob.Count | 3rdparty/include/caffe/blob.hpp:85-96 | the volume of a range of axes, or death on a bad range |
| BlobModule.Blob.LegacyShape | 3rdparty/include/caffe/blob.hpp:139-151 | axes 0 to 3 of the shape with ones behind it, -4 to -1 of the shape with ones in front, death above four axes or elsewhere |
| BlobModule.Blob.Offset | 3rdparty/include/caffe/blob.hpp:166-178 | the row-major offset of the indices filled up with zeros, or death on any bad index |
| BlobModule.Blob.Offset4 | 3rdparty/include/caffe/blob.hpp:153-164 | the four-argument form, and exactly which calls its checks let through |
| BlobModule.OffsetBijection | 3rdparty/include/caffe/blob.hpp:166-178 | full in-range index vectors correspond one to one to the offsets below count |
| BlobModule.UnravelOffset | 3rdparty/include/caffe/blob.hpp:166-178 | dividing an offset back into indices and addressing again gives it back |
| BlobModule.OffsetUnravel | 3rdparty/include/caffe/blob.hpp:166-178 | addressing and dividing back gives the indices back |
| BlobModule.PrefixBlock | 3rdparty/include/caffe/blob.hpp:166-178 | the extensions of a prefix lie in a contiguous block of the volume behind it |
| BlobModule.PrefixBlockFilled | 3rdparty/include/caffe/blob.hpp:166-178 | an offset is that of some extension of the prefix if and only if it lies in that block |
| BlobModule.FourOffsetAgrees | 3rdparty/include/caffe/blob.hpp:153-178 | up to four axes both forms agree on indices in range |
| BlobModule.FourOffsetAddresses | 3rdparty/include/caffe/blob.hpp:153-164 | the four-argument offset is that of the element with these indices if and only if all four are in range |
| BlobModule.FourOffsetTakesTheCount | 3rdparty/include/caffe/blob.hpp:153-164 | one past the end of the first axis is accepted, and gives the count |
| BlobModule.FourOffsetGoesNegative | 3rdparty/include/caffe/blob.hpp:153-164 | every negative second index is accepted, and gives a negative offset |

## Left out

- The application sources and the interfaces of its services: start-up calls, topic strings and input/output without bodies to reason about.
- The lazily filled table under concurrent first use, compiler workarounds, and the selection of word types: a word is any width of at least Bits, and at least eight bits for the table-driven computer.
- crc_basic::process_bits with a count above eight and augmented_crc below eight bits: the source shifts by a negative amount there.
- Rational stream input and output, rational_cast, conversions between component types, abs, and the increments and integer sums, which only shift the numerator by the denominator.
- Products in component types narrower than int, which the source computes in int and narrows back: only the wider remainder behind integer::gcd is modelled, and any other step that does not fit counts as leaving the type.
- The state of a Rational after an operation whose steps leave the type: signed overflow there is undefined.
- The state of a token iterator after an exception, which the source leaves half advanced; the exception itself and the tokens before it are modelled.
- offset_separator and the deprecated char_delimiters_separator.
- Locale classification of characters: isspace and ispunct are parameters.
- Equality of token iterators, which compares positions only.
- Overflow of 32-bit products of blob dimensions: the source relies on a check made elsewhere when a blob is reshaped, which is not part of this model.
- Blob memory, device transfer and arithmetic: foreign calls and missing bodies.
