# Verified models of X-CASH core components

This project models three parts of the X-CASH core and proves what they are for.

* **The embedded-file generator** (`translations/generate_translations_header.c`). It prints a C++ header that holds
  the contents of translation files. `HeaderPrinter` is the program; `CppReader` is a reader for the part of C++ that
  the header uses, in the phases of translation of ISO/IEC 14882:2011 (sections 2.2, 2.4, 2.14.3 and 2.14.5), trigraphs
  and spliced lines included. It reads the structure of the table and the function that the header ends with into a
  syntax tree, and `Lookup` runs that tree. The main result is that this reader finds in the header exactly the files it
  was made from **if and only if** every file has a byte and every name is plain: no quote, no backslash, no newline, no
  null character and no trigraph. A call of the emitted function then finds every file by its name, byte for byte, and
  including the header twice declares nothing twice. Of a header with an empty file, and of what a run leaves behind that cannot open a file, this reader
  makes nothing, whatever the names. What a C++ compiler makes of them follows for names without a quote: such a name
  never leaves its literal (`QuotelessNames`), so a header that is not read back holds a literal that the standard
  does not allow or leaves to the implementation, or declares a shorter name, and a stopped run leaves a directive open.
  A name with a quote can continue as any C++ text, which this reader does not know; "Left out" names three.
* **Words and buffers** (`external/VRF_functions/common.h`). Loads and stores are base-256 digits, rotations are cyclic
  shifts and any sequence of them is one, and `xor_buf` is characterised for every overlap of its two buffers.
* **The verifiable random function** (`external/VRF_functions`). The incremental SHA-512 computes the hash that
  FIPS 180-4 defines, however a message is cut into pieces, and its constants are the roots of primes that the standard
  asks for. Every point of the curve decodes from its encoding, a string
  is accepted exactly when it is reduced and the curve has a point with its y, and two accepted strings decode to one
  point exactly when they are equal, or their y is 1 or -1 and they differ in the sign bit only. The formulas that add
  points without dividing compute the Edwards addition law, which is defined everywhere, keeps to the curve, and makes it
  a commutative group. The scalar multiplications with signed digits compute multiples in it, from representation to
  representation. Elligator 2 finds a point for every string, so `ge25519_from_uniform` never aborts. The list of keys
  that are turned away holds exactly those whose point vanishes times 8. No key pair has such a key, and every proof that
  is made with a key pair verifies under it. A proof verifies **if and only if** the key is valid and the proof answers
  the challenge that its commitment hashes to, and all whose accepted proofs come with another answer to their commitment
  arrive at the same hash for a key and a message, whatever point of the curve the key is.

Numbers are unbounded: `uint8_t`, `uint32_t` and `uint64_t` are naturals below a power of two, and wrap-around,
truncation and carries are written out. `Bits` defines the bitwise operators on naturals bit by bit, and all facts about
them are proved from that definition. Field elements are numbers below 2^255 - 19; a product is defined as a repeated sum,
and `Field25519.MulIs` says that it is the residue of the product.

What the project takes as given is stated in predicates that the lemmas require. `SquareRoots.Fermat` is Fermat's little
theorem for 2^255 - 19, that is, that this number is prime. From it are proved that the constant of the curve is not a
square, Euler's criterion, and all laws of the group, associativity included (`EdwardsAssociative.CurveIsLawful`).
`Vrf.Sound` adds three facts about constants: 8 L times every point of the curve is neutral (`Vrf.CurveOrder`), the base
point has order L (`Vrf.BaseOrder`), and the precomputed tables hold the multiples of the base point that their comment
claims (`PointMult.BaseTables`). `VrfSoundness.PrimeOrder` says that L is prime; only the results of that module need it.

Where the code and its documentation disagree the model follows the code. `external/VRF_functions/convert.cpp:42-49`
says that strings are decoded as section 5.1.3 of RFC 8032 describes, which rejects a zero x coordinate with the sign
bit set. The code accepts it: `Rfc8032.RfcPoint` is the decoding of the standard, and `Rfc8032.DiffersFromRfc` and
`Rfc8032.MisreadStrings` say that the code differs from it on exactly two strings, those of y = 1 and y = -1 with the sign
bit set. Both are on the list of keys that are turned away, so among valid keys decoding is injective.

## Files

| file | what it holds |
|---|---|
| `HeaderPrinter.dfy` | the generator and its text, declaration by declaration and row by row |
| `CppReader.dfy`, `LexerLaws.dfy` | the reader of C++, and where a text may be cut without changing its tokens |
| `SourcePhases.dfy` | what trigraphs and spliced lines change in the header: the names only |
| `LiteralReading.dfy`, `HeaderTokens.dfy`, `DeclarationReading.dfy`, `HeaderReading.dfy` | reading the header back: literals, tokens, declarations, the whole |
| `FixedTokens.dfy`, `FindParsing.dfy` | the fixed lines of the header, and the syntax tree of its function |
| `AcceptedTokens.dfy` | what every accepted header has in common |
| `QuotelessNames.dfy` | headers of names without a quote |
| `IncludeGuard.dfy` | the preprocessor on headers that are included more than once |
| `Lookup.dfy` | running the function of a header, and the whole way of a file |
| `Arithmetic.dfy`, `Bits.dfy`, `Bytes.dfy` | products of integers, bitwise operators and base-256 numbers |
| `WordCodec.dfy`, `WordLaws.dfy`, `Rotations.dfy`, `XorBuffer.dfy` | `common.h` |
| `Sha512Spec.dfy`, `Sha512Constants.dfy`, `Sha512Compress.dfy`, `Sha512Stream.dfy` | SHA-512 as defined, its constants and functions, one block, and the incremental interface |
| `Field25519.dfy`, `RingLaws.dfy`, `SquareRoots.dfy` | the field, identities in it, and its squares |
| `PointCodec.dfy`, `PointDecoding.dfy`, `PointRoundTrip.dfy`, `Rfc8032.dfy` | points as byte strings, and the standard they follow |
| `EdwardsLaw.dfy`, `EdwardsClosure.dfy`, `EdwardsAssociative.dfy`, `Projective.dfy` | the addition of points, its laws, and the formulas that compute it |
| `SmallOrder.dfy`, `SmallOrderPoints.dfy` | the list of keys that are turned away, and what it means |
| `CurveGroup.dfy`, `ScalarMult.dfy`, `PointMult.dfy` | multiples of points, the digits of scalars, and the multiplications |
| `Elligator.dfy`, `FromUniform.dfy` | Elligator 2: why every string gets a point, and the code that finds it |
| `CurveConstants.dfy`, `Scalars.dfy` | the constants of the curve, residues modulo its order, and the secret scalar |
| `VrfTranscript.dfy`, `Vrf.dfy` | hashed strings and proofs; keys, proving and verifying |
| `VrfAcceptance.dfy`, `VrfSoundness.dfy` | what it means that a proof is accepted, and what it proves |

## Model

| member | source | states |
|---|---|---|
| `HeaderPrinter.PrintData` | translations/generate_translations_header.c:55-64 | the byte loop with its counter leaves the rows of sixteen escapes open by one quote, for every file; an empty file opens no row |
| `HeaderPrinter.PrintDecl` | translations/generate_translations_header.c:53-64 | one argument prints its name declaration and its data declaration with the file's length |
| `HeaderPrinter.PrintDecls` | translations/generate_translations_header.c:49-67 | the argument loop prints declarations numbered from 1 and stops at the first file that cannot be opened |
| `HeaderPrinter.PrintRows` | translations/generate_translations_header.c:74-76 | the second loop prints one row per argument, in order, with the addresses of the two strings of its number |
| `HeaderPrinter.Generate` | translations/generate_translations_header.c:37-86 | succeeds exactly when every file opens, and then prints the whole header; otherwise leaves the declarations before the missing file |
| `HeaderPrinter.DataRowsNewRow` | translations/generate_translations_header.c:56-62 | after a multiple of sixteen bytes the next byte closes the literal and starts a row |
| `HeaderPrinter.DataRowsSameRow` | translations/generate_translations_header.c:56-62 | any other byte extends the open literal of the last row |
| `HeaderPrinter.DataRowsSize` | translations/generate_translations_header.c:55-64 | n > 0 bytes take 4n + 5 ceil(n/16) characters and 2 ceil(n/16) quotes |
| `HeaderPrinter.QuotesBalance` | translations/generate_translations_header.c:55-64 | the quotes of a file's literals balance if and only if the file is not empty |
| `SourcePhases.PhasesShrink` | translations/generate_translations_header.c:53 | phases 1 and 2 leave a name alone if and only if it has no trigraph and no spliced line, and make any other shorter |
| `SourcePhases.PhasesOfNameDecl` | translations/generate_translations_header.c:53 | around a name nothing changes: no trigraph and no splice reaches into or out of it |
| `SourcePhases.PhasesOfHeader` | translations/generate_translations_header.c:37-86 | phases 1 and 2 make of the header that of the same files under the names that they leave |
| `SourcePhases.PhasesOfStopped` | translations/generate_translations_header.c:49-67 | the same for what a stopped run leaves behind |
| `LexerLaws.LexCut` | translations/generate_translations_header.c:53-81 | a text may be read in pieces, cut at a newline or at a blank outside literals and directives: no token of C++ reaches across |
| `LiteralReading.EscapesRead` | translations/generate_translations_header.c:62 | hexadecimal escapes, read greedily, give back every byte of a row: no escape absorbs its neighbour |
| `LiteralReading.DataRowsRead` | translations/generate_translations_header.c:55-64 | the adjacent literals of a file are read as exactly its bytes, zero bytes included |
| `LiteralReading.DataRowReads` | translations/generate_translations_header.c:55-64 | one row of escapes is one string token with the bytes of the row |
| `LiteralReading.OpenRowsRead` | translations/generate_translations_header.c:55-63 | at every point of the loop, closing the open literal gives literals that are read as the bytes printed so far |
| `LiteralReading.NumberReads` | translations/generate_translations_header.c:64 | the printed length is read as the length |
| `LiteralReading.DecimalInjective` | translations/generate_translations_header.c:53-54 | different numbers are printed differently |
| `LiteralReading.VerbatimReads` | translations/generate_translations_header.c:53 | after phases 1 and 2, a text without quotes, backslashes and newlines is given back by a literal |
| `LiteralReading.PlainStays` | translations/generate_translations_header.c:53 | phases 1 and 2 leave plain names alone |
| `LiteralReading.NotPlain` | translations/generate_translations_header.c:53 | any other name is seen shorter than it is, or is seen as it is and not given back |
| `DeclarationReading.NameDeclReads` | translations/generate_translations_header.c:53 | after phases 1 and 2, a name without quotes, backslashes, newlines and null characters declares itself |
| `DeclarationReading.RunOfName` | translations/generate_translations_header.c:53 | whatever a name holds, the literals read where it was printed give something shorter, nothing, or the name itself, and the last only if it has no quote, backslash or newline |
| `DeclarationReading.NameDeclDiffers` | translations/generate_translations_header.c:53 | what phases 1 and 2 leave of a name never declares a longer name, nor itself when it has a quote, a backslash, a newline or a null character |
| `DeclarationReading.DataDeclReads` | translations/generate_translations_header.c:54-64 | the data declaration of a file with at least one byte declares its bytes |
| `DeclarationReading.EmptyDataFails` | translations/generate_translations_header.c:54-64 | this reader makes nothing of the data declaration of an empty file |
| `HeaderReading.HeaderReadsBack` | translations/generate_translations_header.c:37-86 | the header of readable files reads back as those files, with a table that ends in null pointers |
| `HeaderReading.DeclsRead` | translations/generate_translations_header.c:49-67 | the declarations of readable files are read one by one, with their numbers |
| `HeaderReading.DeclsDiffer` | translations/generate_translations_header.c:49-67 | with one unreadable file, at whatever place, the declarations are not read as those of the files |
| `HeaderReading.RowsRead` | translations/generate_translations_header.c:74-77 | the rows are read up to the row of null pointers, for any files |
| `HeaderReading.HeaderReadsBackExactly` | translations/generate_translations_header.c:37-86 | this reader finds in the header its files if and only if every file has a byte and every name is plain, trigraphs included |
| `HeaderReading.HeadersThatDiffer` | translations/generate_translations_header.c:53-64 | an empty file, a quote in a name and a trigraph in a name for which the header does not say what it should |
| `HeaderReading.HeaderOfEmptyFile` | translations/generate_translations_header.c:54-64 | one empty file is enough for this reader to make nothing of the header, whatever the names |
| `HeaderReading.StoppedRunRejected` | translations/generate_translations_header.c:50-51 | this reader makes nothing of what a run leaves behind that cannot open a file, whatever the names |
| `QuotelessNames.EndsAtItsQuote` | translations/generate_translations_header.c:53 | a name without a quote never leaves its literal: if the literal ends, it ends at the quote printed after the name |
| `QuotelessNames.QuotelessLine` | translations/generate_translations_header.c:53 | so its line is the declaration of one literal, or breaks off at a bad literal |
| `QuotelessNames.QuotelessHeader` | translations/generate_translations_header.c:37-86 | for any such names, the header declares every file under the value of its literal, or holds a bad literal and is turned away |
| `QuotelessNames.FirstFault` | translations/generate_translations_header.c:49-78 | after the preamble only declarations come before the table or the first bad literal: no directive and nothing else can hide it |
| `QuotelessNames.StoppedRunIsOpen` | translations/generate_translations_header.c:50-51 | what a stopped run leaves behind never closes the `#ifndef` of its preamble, unless a bad literal comes first |
| `QuotelessNames.EmptyFileEndsInBad` | translations/generate_translations_header.c:54-64 | an empty file brings a bad literal that no directive comes before |
| `QuotelessNames.QuotelessExactly` | translations/generate_translations_header.c:53-64 | a header of such names that does not say what it should holds a bad literal or declares a name that is shorter than the one given |
| `AcceptedTokens.AcceptedIsGood` | translations/generate_translations_header.c:37-86 | every accepted header consists of good tokens between the three directives of its include guard and the `#endif` |
| `FindParsing.TableTypeTokens` | translations/generate_translations_header.c:69-72 | the structure of the table is read with its tag, its members in order and the name of the table |
| `FindParsing.CodeParses` | translations/generate_translations_header.c:25-35 | the text of the function is read into its syntax tree: the loop over the table, the comparison, the assignment and the two returns |
| `IncludeGuard.GuardWorks` | translations/generate_translations_header.c:45-47 | of every accepted header the preprocessor keeps all between the guard and the `#endif` when its macro is not defined, and nothing when it is |
| `IncludeGuard.IncludedTwice` | translations/generate_translations_header.c:45-81 | a second inclusion adds nothing |
| `HeaderReading.HeaderWellFormed` | translations/generate_translations_header.c:49-78 | no identifier is declared twice and every row refers to declared strings, for every number of arguments |
| `HeaderReading.NameIdInjective` | translations/generate_translations_header.c:53-54 | arguments with different numbers get different identifiers |
| `HeaderReading.IdsDistinct` | translations/generate_translations_header.c:49-67 | no two declarations of a header share an identifier |
| `Lookup.OneRound` | translations/generate_translations_header.c:28-32 | one round of the loop, run on the syntax tree: at a row with the name it copies the row's content and returns true, at any other it goes on |
| `Lookup.LoopFinds` | translations/generate_translations_header.c:28-33 | from any row on, the loop returns from the first row with the name, or leaves the result alone and goes on behind the null row |
| `Lookup.CallFinds` | translations/generate_translations_header.c:25-35 | a call of the function that was read gives true and the content of the first row with the name, or false and the variable as it was |
| `Lookup.RowResolves` | translations/generate_translations_header.c:49-76 | row i of the table resolves to the name and the content of argument i |
| `Lookup.TableOf` | translations/generate_translations_header.c:69-78 | the table has one row per file, each matching its own name, and then the null row |
| `Lookup.ReachesFirst` | translations/generate_translations_header.c:25-35 | the lookup reaches row k exactly when no earlier argument has the name |
| `Lookup.EmbedAndFind` | translations/generate_translations_header.c:6-86 | when all files open and are readable: printed, read, and looked up by running the function that was read, a file is found if and only if it was named, with exactly its bytes |
| `WordCodec.Load64LE` | external/VRF_functions/common.h:72-90 | or-ing shifted bytes gives the base-256 number of the eight bytes, lowest first |
| `WordCodec.Load32LE` | external/VRF_functions/common.h:111-125 | the same for four bytes |
| `WordCodec.Load64BE` | external/VRF_functions/common.h:144-162 | the same for eight bytes, highest first |
| `WordCodec.Load32BE` | external/VRF_functions/common.h:183-197 | the same for four bytes, highest first |
| `WordCodec.Store64LE` | external/VRF_functions/common.h:93-108 | shifting bytes out writes the base-256 digits and changes nothing else |
| `WordCodec.Store32LE` | external/VRF_functions/common.h:128-139 | the same for four bytes |
| `WordCodec.Store64BE` | external/VRF_functions/common.h:165-180 | the same for eight bytes, highest first |
| `WordCodec.Store32BE` | external/VRF_functions/common.h:200-211 | the same for four bytes, highest first |
| `WordLaws.StoreThenLoad` | external/VRF_functions/common.h:72-211 | a stored word loads as itself in either byte order |
| `WordLaws.LoadThenStore` | external/VRF_functions/common.h:72-211 | loaded bytes store as themselves in either byte order |
| `Bytes.BigEndianIsReversed` | external/VRF_functions/common.h:144-197 | a big-endian load is the little-endian load of the reversed bytes |
| `WordLaws.LoadHalves` | external/VRF_functions/common.h:72-197 | a 64-bit load is its two 32-bit loads, weighted by the byte order |
| `WordLaws.StoreHalves` | external/VRF_functions/common.h:93-211 | a 64-bit store is its two 32-bit stores side by side |
| `Rotations.RotLTurns` | external/VRF_functions/common.h:44-55 | or-ing the two shifts is a cyclic shift by that many single-bit turns |
| `Rotations.RotRIsRotL` | external/VRF_functions/common.h:58-69 | a right rotation is the left rotation by the rest of the width |
| `Rotations.RotationMovesBits` | external/VRF_functions/common.h:44-69 | a rotation moves the bit at place i to place i + b or i - b, going round |
| `Rotations.RotateAllTurns` | external/VRF_functions/common.h:44-69 | any sequence of rotations is one cyclic shift by the net amount modulo the width |
| `Rotations.RotateAllIdentity` | external/VRF_functions/common.h:44-69 | a sequence of rotations leaves every word alone if and only if its net amount is a multiple of the width |
| `XorBuffer.XorBuffer` | external/VRF_functions/common.h:214-222 | the loop on one memory with two offsets, whatever their overlap |
| `XorBuffer.XorBufForward` | external/VRF_functions/common.h:214-222 | with the output d bytes after the input, byte m ends as the exclusive or of the original bytes at m, m - d, m - 2d, ... down to the input; nothing else changes |
| `XorBuffer.XorBufBackward` | external/VRF_functions/common.h:214-222 | with the input at or after the output, byte m ends as the exclusive or of two original bytes; nothing else changes |
| `XorBuffer.XorBufDisjoint` | external/VRF_functions/common.h:214-222 | on buffers that do not overlap byte m ends as the exclusive or of the two original bytes, wherever the input lies |
| `XorBuffer.XorBufSelf` | external/VRF_functions/common.h:214-222 | a buffer combined with itself ends as zeros |
| `XorBuffer.TwiceRestores` | external/VRF_functions/common.h:214-222 | on buffers that do not overlap a second call undoes the first |
| `XorBuffer.TwiceFails` | external/VRF_functions/common.h:214-222 | for every overlap there is a memory that a second call does not restore |
| `XorBuffer.TwiceRestoresExactly` | external/VRF_functions/common.h:214-222 | running it twice restores every memory if and only if the buffers do not overlap |
| `XorBuffer.XorMasksByte` | external/VRF_functions/common.h:214-222 | after several masks a byte is the exclusive or of the original byte and all mask bytes |
| `XorBuffer.MasksAnyOrder` | external/VRF_functions/common.h:214-222 | masks that do not overlap the output may be applied in any order |
| `XorBuffer.MasksTwice` | external/VRF_functions/common.h:214-222 | applying the same masks again restores the memory |
| `XorBuffer.XorBufWords` | external/VRF_functions/common.h:72-222 | every word of the output ends as the exclusive or of the two words that were there, in either byte order |
| `Sha512Compress.MacrosAreStandard` | external/VRF_functions/sha512EL.cpp:83-84 | the macros Ch and Maj compute the functions of section 4.1.3 of FIPS 180-4 |
| `Sha512Constants.PrimesAre` | external/VRF_functions/sha512EL.cpp:53-81 | the list of primes that the constants are taken from holds the first eighty, in order |
| `Sha512Constants.RoundConstants` | external/VRF_functions/sha512EL.cpp:53-81 | every round constant is the first 64 bits of the fractional part of the cube root of its prime, as section 4.2.3 defines it |
| `Sha512Constants.InitialHash` | external/VRF_functions/sha512EL.cpp:190-194 | the initial hash value is made of the square roots of the first eight primes, as section 5.3.5 defines it |
| `Sha512Constants.BigSigmaBits` | external/VRF_functions/sha512EL.cpp:87-88 | which three bits of a word each bit of S0 and S1 combines |
| `Sha512Constants.SmallSigmaBits` | external/VRF_functions/sha512EL.cpp:89-90 | which three bits of a word each bit of s0 and s1 combines, zeros shifted in included |
| `Sha512Constants.ChoiceBits` | external/VRF_functions/sha512EL.cpp:83-84 | Ch chooses each bit by the bit of x, Maj takes the bit of the majority |
| `Sha512Constants.PaddingParts` | external/VRF_functions/sha512EL.cpp:156-185 | the padding is a one bit, the fewest zeros that fill the last block, and the length in bits |
| `Sha512Constants.DigestWords` | external/VRF_functions/sha512EL.cpp:251-262 | the digest holds the words of the hash value, highest byte first |
| `Sha512Compress.Rnd` | external/VRF_functions/sha512EL.cpp:92-100 | a round that renames the eight variables instead of moving them is a round of section 6.4.2 |
| `Sha512Compress.Msch` | external/VRF_functions/sha512EL.cpp:102-104 | one more word of the message schedule |
| `Sha512Compress.DecodeBlock` | external/VRF_functions/sha512EL.cpp:43-51 | the first sixteen words of the schedule are the block's big-endian words |
| `Sha512Compress.SixteenRounds` | external/VRF_functions/sha512EL.cpp:115-130 | sixteen rounds bring every variable back to its own place |
| `Sha512Compress.ExtendSchedule` | external/VRF_functions/sha512EL.cpp:134-149 | sixteen more words of the schedule between two groups of rounds |
| `Sha512Compress.Transform` | external/VRF_functions/sha512EL.cpp:106-154 | computing the schedule between the rounds gives the compression function of section 6.4 |
| `Sha512Compress.CopyState` | external/VRF_functions/sha512EL.cpp:113 | the working variables start as the state |
| `Sha512Compress.AddState` | external/VRF_functions/sha512EL.cpp:151-153 | the working variables are added to the state modulo 2^64 |
| `Sha512Stream.CountAdd` | external/VRF_functions/sha512EL.cpp:216-223 | the carry between the two counter words keeps the length in bits modulo 2^128 |
| `Sha512Stream.WaitingBytes` | external/VRF_functions/sha512EL.cpp:214 | the masked counter is the number of bytes that wait in the buffer |
| `Sha512Stream.LengthWords` | external/VRF_functions/sha512EL.cpp:183 | the two counter words, highest byte first, are the length field of section 5.1.2 |
| `Sha512Stream.ShortPadding` | external/VRF_functions/sha512EL.cpp:172-175 | less than 112 waiting bytes are padded within their block as section 5.1.2 asks |
| `Sha512Stream.LongPadding` | external/VRF_functions/sha512EL.cpp:176-182 | 112 or more waiting bytes are padded over two blocks as section 5.1.2 asks |
| `Sha512Stream.HashState.constructor` | external/VRF_functions/sha512EL.cpp:187-200 | a new state has absorbed the empty message |
| `Sha512Stream.HashState.Count` | external/VRF_functions/sha512EL.cpp:216-223 | the counter grows by the length of the input, with shifts and a carry |
| `Sha512Stream.HashState.Fill` | external/VRF_functions/sha512EL.cpp:225-227 | input goes behind the bytes that wait |
| `Sha512Stream.HashState.CompressBlocks` | external/VRF_functions/sha512EL.cpp:237-241 | whole blocks of the input are compressed one after the other until less than a block is left |
| `Sha512Stream.HashState.Update` | external/VRF_functions/sha512EL.cpp:202-249 | absorbs input of any length: blocks are compressed, the rest waits, the counter is right |
| `Sha512Stream.HashState.FillPad` | external/VRF_functions/sha512EL.cpp:173-179 | padding goes behind the bytes that wait |
| `Sha512Stream.HashState.StoreCount` | external/VRF_functions/sha512EL.cpp:183 | the last sixteen bytes become the length field, the others stay |
| `Sha512Stream.HashState.ClearBuf` | external/VRF_functions/sha512EL.cpp:181 | the first bytes of the buffer become zero |
| `Sha512Stream.HashState.StoreState` | external/VRF_functions/sha512EL.cpp:257 | the output is the state, highest byte of each word first |
| `Sha512Stream.HashState.Finish` | external/VRF_functions/sha512EL.cpp:165-185 | compresses the padded rest of the message |
| `Sha512Stream.HashState.Final` | external/VRF_functions/sha512EL.cpp:251-262 | gives the SHA-512 hash of all that was absorbed, and clears the state |
| `Sha512Stream.HashState.Erase` | external/VRF_functions/sha512EL.cpp:259 | state, counters and buffer become zero |
| `Sha512Stream.HashMessage` | external/VRF_functions/sha512EL.cpp:264-275 | the hash of a message in one piece |
| `Sha512Stream.HashPieces` | external/VRF_functions/sha512EL.cpp:187-262 | the hash of a message does not depend on how it is cut into pieces |
| `Sha512Stream.AbsorbAll` | external/VRF_functions/sha512EL.cpp:202-249 | updates one after the other absorb the concatenation of their inputs |
| `Field25519.Pow22523` | external/VRF_functions/ed25519_ref10.cpp:133-186 | the chain of squarings and multiplications raises to (p - 5) / 8 |
| `Field25519.Squarings` | external/VRF_functions/ed25519_ref10.cpp:148-151 | a loop of n squarings multiplies the exponent by 2^n |
| `Field25519.Extend` | external/VRF_functions/ed25519_ref10.cpp:148-152 | squaring and multiplying joins exponents of m and n one bits to one of m + n |
| `PointCodec.NotCanonical` | external/VRF_functions/ed25519_ref10.cpp:1007-1022 | the low 255 bits are not reduced exactly when they are all ones above a byte of at least 0xed |
| `PointCodec.IsCanonical` | external/VRF_functions/ed25519_ref10.cpp:1007-1022 | the comparison without branches answers 1 if and only if the y coordinate is below 2^255 - 19 |
| `PointCodec.StringValue` | external/VRF_functions/ed25519_ref10.cpp:1007-1022 | a string is its low 255 bits plus 2^255 times its top bit |
| `PointCodec.PartsDetermine` | external/VRF_functions/ed25519_ref10.cpp:498-510 | y and sign together determine the string |
| `PointDecoding.DecodePoint` | external/VRF_functions/ed25519_ref10.cpp:253-296 | the steps compute the root candidate, the choice of root and the sign |
| `PointDecoding.DecodedOnCurve` | external/VRF_functions/ed25519_ref10.cpp:253-296 | every accepted string decodes to a point of the curve |
| `PointDecoding.SqrtOfMinusOne` | external/VRF_functions/ed25519_ref10.cpp:253-296 | the constant that switches to the other root squares to -1 |
| `CurveConstants.LimbValues` | external/VRF_functions/fe_25_5/constants.h:24-43 | the limbs of the four constants have the values D, 2 D, sqrt(-1) and A |
| `CurveConstants.CurveConstant` | external/VRF_functions/fe_25_5/constants.h:24-27 | D is -121665 / 121666 |
| `PointDecoding.EncodedParts` | external/VRF_functions/ed25519_ref10.cpp:498-510 | the encoding of a point is reduced and holds y and the sign of x |
| `Projective.P3FromBytes` | external/VRF_functions/ed25519_ref10.cpp:253-296 | decoding answers the same and fills in the coordinates of its point |
| `Projective.P3FromString` | external/VRF_functions/convert.cpp:50-58 | a string is accepted exactly when it is reduced and its x can be recovered, with the coordinates of its point |
| `PointRoundTrip.RoundTrip` | external/VRF_functions/convert.cpp:36-58 | every point of the curve is encoded as a string that is accepted and decodes to it |
| `PointRoundTrip.AcceptedExactly` | external/VRF_functions/convert.cpp:50-58 | a string is accepted if and only if it is reduced and the curve has a point with its y |
| `PointRoundTrip.EncodedDifferently` | external/VRF_functions/convert.cpp:36-40 | different points of the curve are encoded differently |
| `PointRoundTrip.CandidateOfSquare` | external/VRF_functions/ed25519_ref10.cpp:253-296 | for u = v x^2 the candidate of the code is x to the power (p + 3) / 4 |
| `PointRoundTrip.RootFound` | external/VRF_functions/ed25519_ref10.cpp:253-296 | for u = v x^2 the candidate, or the candidate times sqrt(-1), is a root |
| `PointRoundTrip.RootIs` | external/VRF_functions/ed25519_ref10.cpp:253-296 | on the curve the root that the code finds is x or -x |
| `Rfc8032.ZeroX` | external/VRF_functions/convert.cpp:50-58 | a reduced string decodes to x = 0 if and only if its y is 1 or -1, whether it is accepted or not |
| `Rfc8032.DecodedParts` | external/VRF_functions/ed25519_ref10.cpp:253-296 | decoding keeps y, and keeps the sign if and only if the string is not one of y = 1 or y = -1 with the sign bit set |
| `Rfc8032.ReencodesExactly` | external/VRF_functions/convert.cpp:36-58 | encoding what a reduced string decodes to gives the string back under the same condition |
| `Rfc8032.DiffersFromRfc` | external/VRF_functions/convert.cpp:42-58 | the code decodes as section 5.1.3 of RFC 8032 does if and only if the string is not one of those, which it accepts and the standard rejects |
| `Rfc8032.MisreadStrings` | external/VRF_functions/convert.cpp:42-58 | there are two such strings, byte for byte |
| `Rfc8032.RfcInvertsEncoding` | external/VRF_functions/convert.cpp:36-58 | the decoding of the standard is the inverse of the encoding of points of the curve |
| `Rfc8032.DecodingInjective` | external/VRF_functions/convert.cpp:50-58 | two accepted strings decode to one point if and only if they are equal, or y is 1 or -1 and they differ in the sign bit |
| `Rfc8032.FlippedOnAxis` | external/VRF_functions/convert.cpp:50-58 | with y = 1 or y = -1 both signs are accepted and decode to the same point |
| `Rfc8032.ValidKeysInjective` | external/VRF_functions/verify.cpp:91-98 | among valid keys decoding is injective and is that of the standard |
| `SquareRoots.NotSquare` | external/VRF_functions/ed25519_ref10.cpp:253-296 | the constant of the curve is not a square, from Fermat's little theorem |
| `SquareRoots.DenominatorNotZero` | external/VRF_functions/ed25519_ref10.cpp:253-296 | the denominator of x^2 is never zero |
| `SmallOrder.CheckSmallOrder` | external/VRF_functions/ed25519_ref10.cpp:1024-1078 | the comparison without branches answers 1 if and only if the string without its sign is on the list |
| `SmallOrder.CompareByte` | external/VRF_functions/ed25519_ref10.cpp:1066-1068 | an accumulator stays zero exactly for the entries that agree so far |
| `SmallOrder.AnyZero` | external/VRF_functions/ed25519_ref10.cpp:1073-1077 | the borrow of c - 1 tells whether an accumulator is zero |
| `SmallOrderPoints.ListedExactly` | external/VRF_functions/ed25519_ref10.cpp:1024-1078 | the list spells the y coordinates 0, 1, -1 and the two of order 8, and 0 and 1 once more unreduced |
| `SmallOrderPoints.ListedVanishes` | external/VRF_functions/ed25519_ref10.cpp:1024-1078 | eight times a key on the list is the neutral point |
| `SmallOrderPoints.SmallOrderExactly` | external/VRF_functions/ed25519_ref10.cpp:1024-1078 | of the strings that decode, exactly those on the list vanish times 8: none is missing, reduced or not |
| `SmallOrderPoints.SmallYFromVanishing` | external/VRF_functions/ed25519_ref10.cpp:1024-1078 | a point that vanishes times 8 has one of the five y coordinates |
| `ScalarMult.Recode` | external/VRF_functions/ed25519_ref10.cpp:816-831 | the recoded digits lie between -8 and 8 and have the value of the scalar |
| `ScalarMult.Split` | external/VRF_functions/ed25519_ref10.cpp:816-819 | the digits are the halves of the bytes |
| `ScalarMult.NibblesValue` | external/VRF_functions/ed25519_ref10.cpp:816-821 | in base 16 they have the value of the scalar |
| `PointMult.Table` | external/VRF_functions/ed25519_ref10.cpp:786-814 | the table holds the multiples 1 to 8 in cached form |
| `PointMult.TableDouble` | external/VRF_functions/ed25519_ref10.cpp:788-790 | a double of a multiple, converted and cached |
| `PointMult.TableNext` | external/VRF_functions/ed25519_ref10.cpp:792-794 | the next multiple, converted and cached |
| `PointMult.TimesSixteen` | external/VRF_functions/ed25519_ref10.cpp:839-848 | four doublings multiply by sixteen, whatever the representation passed between them |
| `PointMult.DoubleMultiple` | external/VRF_functions/ed25519_ref10.cpp:422-436 | a doubling of a multiple is the multiple by twice the number |
| `PointMult.AddMultiples` | external/VRF_functions/ed25519_ref10.cpp:192-208 | an addition of multiples is the multiple by the sum |
| `PointMult.MaddMultiples` | external/VRF_functions/ed25519_ref10.cpp:347-362 | the same with a precomputed point |
| `ScalarMult.Equal` | external/VRF_functions/ed25519_ref10.cpp:532-544 | the comparison without branches answers 1 if and only if the two characters agree |
| `ScalarMult.Negative` | external/VRF_functions/ed25519_ref10.cpp:546-555 | bit 63 of the converted character is its sign |
| `ScalarMult.Magnitude` | external/VRF_functions/ed25519_ref10.cpp:577-579 | masking and subtracting gives the absolute value of the digit |
| `PointMult.SelectCached` | external/VRF_functions/ed25519_ref10.cpp:609-630 | conditional moves over the table give the multiple that a signed digit asks for |
| `PointMult.Select` | external/VRF_functions/ed25519_ref10.cpp:574-594 | the same from a table of precomputed points |
| `PointMult.Multiply` | external/VRF_functions/ed25519_ref10.cpp:773-854 | the windowed multiplication gives a representation of the scalar's value times the point |
| `ScalarMult.EvenAndOdd` | external/VRF_functions/ed25519_ref10.cpp:893-914 | summing even and odd digits apart, the odd ones sixteenfold, gives the value of all digits |
| `PointMult.AddDigits` | external/VRF_functions/ed25519_ref10.cpp:895-899 | a pass over the digits of one parity adds their sum, weighted by powers of 256, times the base point |
| `PointMult.MultiplyBase` | external/VRF_functions/ed25519_ref10.cpp:866-915 | the multiplication with precomputed tables gives a representation of the scalar's value times the base point |
| `CurveGroup.TimesAdd` | external/VRF_functions/ed25519_ref10.cpp:773-854 | multiples add, for all integers |
| `CurveGroup.TimesTimes` | external/VRF_functions/ed25519_ref10.cpp:773-854 | multiples of multiples multiply, for all integers |
| `CurveGroup.TimesNegative` | external/VRF_functions/ed25519_ref10.cpp:609-630 | the multiple by -n is the inverse of the multiple by n |
| `EdwardsLaw.NeverVanishes` | external/VRF_functions/ed25519_ref10.cpp:192-208 | on the curve D x1 x2 y1 y2 is never 1 or -1, so the addition law is defined for all points |
| `EdwardsLaw.UniqueSum` | external/VRF_functions/ed25519_ref10.cpp:192-208 | the addition law determines the sum |
| `EdwardsClosure.SumOnCurve` | external/VRF_functions/ed25519_ref10.cpp:192-208 | the sum of two points of the curve lies on the curve |
| `EdwardsAssociative.SumAssociates` | external/VRF_functions/ed25519_ref10.cpp:192-208 | the addition law is associative, for any three points of the curve |
| `EdwardsAssociative.EdwardsIsLawful` | external/VRF_functions/ed25519_ref10.cpp:192-208 | an addition by this law makes the curve a commutative group with (0, 1) and (-x, y) |
| `EdwardsClosure.CurveIsEdwards` | external/VRF_functions/ed25519_ref10.cpp:192-208 | dividing by the denominators gives such an addition |
| `Projective.P3ToCached` | external/VRF_functions/ed25519_ref10.cpp:460-467 | the cached form holds the sum and the difference of the coordinates and 2 D x y, scaled by Z |
| `Projective.P1P1ToP3` | external/VRF_functions/ed25519_ref10.cpp:401-408 | the conversion keeps the point |
| `Projective.P1P1ToP2` | external/VRF_functions/ed25519_ref10.cpp:389-395 | the conversion keeps the point |
| `Projective.GeAdd` | external/VRF_functions/ed25519_ref10.cpp:192-208 | the formula computes the sum of the addition law, and its denominators do not vanish |
| `Projective.GeSub` | external/VRF_functions/ed25519_ref10.cpp:636-652 | the formula computes the sum with the inverse |
| `Projective.GeMadd` | external/VRF_functions/ed25519_ref10.cpp:347-362 | the formula with a precomputed point computes the sum |
| `Projective.P2Dbl` | external/VRF_functions/ed25519_ref10.cpp:422-436 | the formula computes the double, by the equation of the curve |
| `Projective.AddP3` | external/VRF_functions/verify.cpp:41-43 | the three steps of an addition together |
| `Projective.SubP3` | external/VRF_functions/verify.cpp:148-151 | the three steps of a subtraction together |
| `Projective.Invert` | external/VRF_functions/ed25519_ref10.cpp:75-131 | the chain of squarings and multiplications raises to p - 2 |
| `Projective.P3ToBytes` | external/VRF_functions/ed25519_ref10.cpp:498-510 | the encoding of a point does not depend on the Z it is represented with |
| `Elligator.Euler` | external/VRF_functions/ed25519_ref10.cpp:1924-1978 | z to the power (p - 1) / 2 is 1 for squares, -1 for other numbers and 0 for zero |
| `Elligator.ChiOfTwo` | external/VRF_functions/ed25519_ref10.cpp:2000-2004 | 2 is not a square |
| `Elligator.ChosenIs` | external/VRF_functions/ed25519_ref10.cpp:2000-2020 | the code takes u where u^3 + A u^2 + u is a square and -A - u elsewhere, where it is one |
| `Elligator.FirstUIs` | external/VRF_functions/ed25519_ref10.cpp:2000-2004 | u (1 + 2 r^2) = -A, and u = 0 where the code divides by zero |
| `Elligator.EdwardsYIs` | external/VRF_functions/ed25519_ref10.cpp:2022-2036 | (u + 1) y = u - 1, and y = 0 where the code divides by zero |
| `Elligator.CompanionRoot` | external/VRF_functions/ed25519_ref10.cpp:2016-2020 | when u is not on the Montgomery curve, -A - u is |
| `Elligator.ToEdwards` | external/VRF_functions/ed25519_ref10.cpp:2022-2036 | for every point of the Montgomery curve y = (u - 1) / (u + 1) is the y of a point of the Edwards curve, the two exceptions included |
| `Elligator.ElligatorOnCurve` | external/VRF_functions/ed25519_ref10.cpp:1997-2042 | whatever number is mapped, the y that is found is the y of a point of the curve |
| `FromUniform.Chi25519` | external/VRF_functions/ed25519_ref10.cpp:1924-1978 | the chain of squarings and multiplications raises to (p - 1) / 2 |
| `FromUniform.SecondByte` | external/VRF_functions/ed25519_ref10.cpp:2014-2015 | one bit of the encoding tells -1 from 0 and 1 |
| `FromUniform.ElligatorY` | external/VRF_functions/ed25519_ref10.cpp:2000-2036 | the steps compute the y of Elligator 2 |
| `FromUniform.UniformOnCurve` | external/VRF_functions/ed25519_ref10.cpp:2038-2042 | the string that is decoded decodes to a point of the curve |
| `FromUniform.MapUniform` | external/VRF_functions/ed25519_ref10.cpp:1980-2053 | `abort` is never called, for any string, and the result encodes eight times the point |
| `FromUniform.UniformParts` | external/VRF_functions/ed25519_ref10.cpp:1993-2042 | the number that is mapped is the low 255 bits of the string modulo p, and the parity of x is its top bit |
| `FromUniform.MappedDecodes` | external/VRF_functions/ed25519_ref10.cpp:2044-2052 | the result is accepted, and decodes to eight times the point that was found |
| `VrfTranscript.PointsInputParts` | external/VRF_functions/convert.cpp:96-103 | the hashed string is 130 bytes long, starts with 4 and 2, and holds the four points at their places |
| `VrfTranscript.CurveInputParts` | external/VRF_functions/convert.cpp:76-82 | the string hashed to the curve is 4, 1, the key and the message |
| `VrfTranscript.OutputInputParts` | external/VRF_functions/verify.cpp:72-76 | the string hashed to the output is 4, 3 and the point |
| `VrfTranscript.OutputInputInjective` | external/VRF_functions/verify.cpp:72-76 | it determines the point of the curve |
| `VrfTranscript.ChallengeValue` | external/VRF_functions/convert.cpp:104-105 | a challenge is the low 128 bits of the hash |
| `VrfTranscript.UniformValue` | external/VRF_functions/convert.cpp:84-85 | what is mapped to the curve is the low 255 bits of the hash |
| `VrfTranscript.PointsInputInjective` | external/VRF_functions/convert.cpp:96-104 | it determines the four points of the curve and their order |
| `VrfTranscript.CurveInputInjective` | external/VRF_functions/convert.cpp:74-82 | the string hashed to the curve determines the key on the curve and the message, of any length |
| `VrfTranscript.DomainsSeparate` | external/VRF_functions/convert.cpp:30-104 | no string is hashed for two purposes |
| `VrfTranscript.FillPoints` | external/VRF_functions/convert.cpp:96-103 | writing the parts into the buffer gives the hashed string |
| `VrfTranscript.HashCurveInput` | external/VRF_functions/convert.cpp:76-82 | four updates hash the concatenation of the four parts |
| `VrfTranscript.HashPoints` | external/VRF_functions/convert.cpp:91-107 | writes the first sixteen bytes of the hash of the four points and no more |
| `VrfTranscript.HashToCurve` | external/VRF_functions/convert.cpp:65-86 | absorbing suite, tag, key and message one by one hashes their concatenation; the sign bit is cleared and the rest mapped to the curve |
| `VrfTranscript.DecodeProof` | external/VRF_functions/convert.cpp:113-124 | splits a proof; a rejected proof leaves both outputs unchanged |
| `VrfTranscript.ProofsInjective` | external/VRF_functions/convert.cpp:113-124 | two accepted proofs have the same parts if and only if they are equal, or the y of their point is 1 or -1 and they differ in its sign bit |
| `VrfTranscript.FlippedProof` | external/VRF_functions/convert.cpp:113-124 | flipping the sign bit of an accepted proof keeps its parts if and only if the y of its point is 1 or -1 |
| `VrfTranscript.Verify16` | external/VRF_functions/crypto_verify.cpp:34-54 | the comparison without branches answers 0 if and only if the sixteen bytes agree |
| `Scalars.ClampMeaning` | external/VRF_functions/prove.cpp:43-45 | the secret scalar is a multiple of 8 between 2^254 and 2^255 |
| `Scalars.ClampValue` | external/VRF_functions/keypair.cpp:49-53 | bit for bit: the secret scalar is 2^254 plus bits 3 to 253 of the lower half of the hash |
| `Scalars.ClampBytes` | external/VRF_functions/prove.cpp:43-46 | the three statements clamp the lower half of the hash in place and leave the upper half |
| `Vrf.SecretParts` | external/VRF_functions/prove.cpp:42-47 | which bits of the hash of the seed go into the secret scalar, and which into the nonces |
| `Vrf.ExpandSk` | external/VRF_functions/prove.cpp:36-51 | the scalar and the other half come from the seed, the point from the public half, which may not decode |
| `Vrf.KeypairFromSeed` | external/VRF_functions/keypair.cpp:43-59 | the public key encodes the secret scalar times the base point; the secret key is the seed and the public key |
| `Vrf.MappedSound` | external/VRF_functions/ed25519_ref10.cpp:2044-2052 | L times a point that a string is mapped to is neutral, because it is eight times a point |
| `Vrf.HashPointIs` | external/VRF_functions/convert.cpp:65-86 | a key and a message hash to eight times the point that Elligator 2 finds for SHA-512 of 4, 1, the key and the message |
| `Vrf.NonceGeneration` | external/VRF_functions/prove.cpp:59-77 | the nonce is the hash of the secret half and the hashed message, modulo L |
| `Vrf.NonceValue` | external/VRF_functions/prove.cpp:67-74 | as a number, the nonce is the hash of the secret half and the hashed point, modulo L |
| `Vrf.ProveWith` | external/VRF_functions/prove.cpp:85-122 | a proof is made of x H, the challenge and c x + k modulo L |
| `Vrf.Prove` | external/VRF_functions/prove.cpp:135-155 | a proof is made exactly when the public half of the key decodes |
| `Vrf.ProofToHash` | external/VRF_functions/verify.cpp:58-79 | the hash of the cofactor times the proof's point; an undecodable proof writes nothing |
| `Vrf.TimesCofactor` | external/VRF_functions/verify.cpp:36-50 | three additions multiply by eight |
| `Vrf.Difference` | external/VRF_functions/verify.cpp:146-151 | a difference of two multiples, through the cached form and back |
| `Vrf.ValidateKey` | external/VRF_functions/verify.cpp:91-98 | a key is valid exactly when it is not on the list of small orders and decodes |
| `Vrf.ProofScalars` | external/VRF_functions/verify.cpp:127-141 | the challenge is extended by zeros and the response reduced modulo L |
| `Scalars.ScalarValue` | external/VRF_functions/ed25519_ref10.cpp:1578-1900 | a reduced scalar has the residue as its value and leaves the top bit clear, as the multiplications require |
| `Scalars.OrderIs` | external/VRF_functions/ed25519_ref10.cpp:1568-1576 | L is the order that section 5.1 of RFC 8032 gives |
| `Scalars.WidenedValue` | external/VRF_functions/verify.cpp:130-133 | extending the challenge by zeros keeps its value |
| `Vrf.CheckChallenge` | external/VRF_functions/verify.cpp:143-161 | compares the recomputed challenge with the one in the proof |
| `Vrf.VerifyWith` | external/VRF_functions/verify.cpp:115-162 | answers 0 if and only if the challenge recomputed from s B - c Y and s H - c Gamma is the one in the proof |
| `Vrf.Verify` | external/VRF_functions/verify.cpp:174-186 | answers the proof's hash exactly when key and challenge are right, and writes nothing otherwise |
| `Vrf.KeyEquation` | external/VRF_functions/verify.cpp:146-158 | s Q - c (x Q) = k Q wherever L Q = 0 and s is congruent to c x + k modulo L |
| `Vrf.HonestChallenge` | external/VRF_functions/verify.cpp:127-161 | from an honest proof, for any nonce, the verifier recomputes the challenge of the prover |
| `Vrf.PublicKeyIsValid` | external/VRF_functions/keypair.cpp:43-59 | no key pair has a public key that is turned away, because the secret scalar is a multiple of 8 below 8 L |
| `Vrf.ExactOrder` | external/VRF_functions/prove.cpp:36-51 | a multiple of the base point is neutral only when L divides the scalar |
| `Scalars.NotMultiple` | external/VRF_functions/prove.cpp:43-45 | L does not divide 8 times a clamped scalar |
| `Vrf.Completeness` | external/VRF_functions/verify.cpp:174-186 | every proof made with a key pair, for every seed and message, verifies under its public key and gives the proof's hash |
| `Vrf.ProveThenVerify` | external/VRF_functions/verify.cpp:174-186 | making keys, proving and verifying in a row always accepts, and writes the hash of the proof |
| `VrfAcceptance.VerifiedExactly` | external/VRF_functions/verify.cpp:174-186 | a proof is accepted if and only if the key is valid, its point decodes, and there are u and v with u + c Y = s B and v + c Gamma = s H whose hash with H and Gamma is c, where c and s are bytes 32 to 47 and 48 to 79 of the proof; the answer is then the proof's hash |
| `VrfAcceptance.RecomputedExactly` | external/VRF_functions/verify.cpp:127-161 | the recomputed challenge is right if and only if such u and v exist |
| `VrfAcceptance.ValidKeyExactly` | external/VRF_functions/verify.cpp:91-98 | a key is valid if and only if it decodes to a point that does not vanish times 8 |
| `VrfAcceptance.HashOfIs` | external/VRF_functions/verify.cpp:66-76 | the hash of a proof is SHA-512 of 4, 3 and eight times its point |
| `VrfAcceptance.HonestProof` | external/VRF_functions/prove.cpp:135-155 | the proof of a message under a key pair is made with the secret scalar and with the nonce SHA-512(secret half, H) modulo L |
| `VrfAcceptance.ProofFromParts` | external/VRF_functions/prove.cpp:101-112 | a proof consists of x H, the hash of H, x H, k B and k H, and the response |
| `VrfAcceptance.ResponseValue` | external/VRF_functions/prove.cpp:112 | the response is c x + k modulo L |
| `VrfSoundness.AnswersGiveScalar` | external/VRF_functions/verify.cpp:146-151 | two answers to one commitment determine the secret scalar modulo L |
| `VrfSoundness.SpecialSoundness` | external/VRF_functions/verify.cpp:146-161 | two answers to one commitment u, v with different challenges give an x with 8 Y = 8 x B and 8 Gamma = 8 x H, for every point Y of the curve |
| `VrfSoundness.AcceptedSoundness` | external/VRF_functions/verify.cpp:115-162 | a proof that verifies and another answer to its commitment: its point is x H up to the cofactor, for an x that fits the key |
| `VrfSoundness.MisfitHasOneChallenge` | external/VRF_functions/verify.cpp:115-162 | when the point of a proof does not fit the key, only one challenge to its commitment can be answered at all |
| `VrfSoundness.ScalarIsDetermined` | external/VRF_functions/verify.cpp:146-151 | a scalar that fits a key up to the cofactor is determined modulo L |
| `VrfSoundness.UniqueHash` | external/VRF_functions/verify.cpp:58-79 | all points that fit one key and one message give one hash |
| `VrfSoundness.OneHashPerKey` | external/VRF_functions/verify.cpp:115-186 | two accepted proofs for one key and one message, each with another answer to its commitment, verify with the same hash |
| `VrfSoundness.HashIsDetermined` | external/VRF_functions/verify.cpp:58-79 | for the key of a secret scalar x the hash is that of x H |

## Left out

- Files of 2^31 bytes or more among the arguments, for which the generator's counter overflows.
- Rotations by 0 or by the width of the word, for which a C++ shift is undefined.
- Opening and closing files, exit codes and the order of writes in the generator: the files are a map from names to contents.
- Comments, expressions, further declarators, raw strings, encoding prefixes, universal character names and user-defined literals: the reader does not know them; a name needs a quote or a backslash to start one.
- HeaderReading.HeaderReadsBackExactly: "only if" is stated of this reader, not of C++. A name with a quote can continue as an expression that gives back the name: `"+[](std::string s){char q=34;return q+s+q+s+q+')'+'+'+q;}("+[](std::string s){char q=34;return q+s+q+s+q+')'+'+'+q;}(")+"` is not plain, and a compiler declares exactly it.
- HeaderReading.HeaderOfEmptyFile: is stated of this reader, not of C++. Names with quotes can put the open literal of an empty file into a comment, as the names `x"; /*`, `b` (the empty file) and `*/static const std::string translation_file_data_1="",translation_file_name_2="b",translation_file_data_2="",translation_file_name_3="z` do.
- HeaderReading.StoppedRunRejected: is stated of this reader, not of C++. A name with quotes and newlines can close the open directive itself, as `a";`, a newline, `#endif`, a newline and `static const std::string z = "q` do.
- QuotelessNames.QuotelessHeader: a literal with an escape that section 2.14.3 does not list, with one out of range or with a universal character name counts as bad. Some compilers accept it, and then declare a name that is shorter than the one given.
- Phase 1 is taken to map every character to itself. What it does is defined by the implementation, and some compilers end the line at a carriage return inside a name.
- Loops of the emitted function whose body moves the pointer back, and directives other than `#ifndef`, `#define`, `#include` and `#endif`: the model gets stuck on the first and ignores the others; the header has neither.
- The `memcpy` branches for machines with a native byte order, and the alignment, intrinsics and poison macros of `common.h`.
- Scalars.ScalarValue: the arithmetic on limbs of `sc25519_reduce` and `sc25519_muladd` is not modelled, only that the result is the residue modulo L.
- Arithmetic on limbs in `fe25519_mul` and the other operations of the field: field elements are exact residues.
- The contents of the precomputed tables: that they hold the multiples their comment claims is stated in `PointMult.BaseTables`, not proved.
- That 2^255 - 19 and L are prime, that 8 L annihilates the curve and that the base point has order L: facts about constants, taken as given where they are needed.
- Conditional moves on limbs (`fe25519_cmov`): a move is an assignment under a condition, for 0 and 1.
- Erasing of secrets other than in `crypto_hash_sha512_final`, and running time that does not depend on secrets.
- That distinct points have distinct hashes, or that a proof cannot be forged: these rest on assumptions about SHA-512 and discrete logarithms.
- Overlap between a proof and the buffers it is decoded into: a proof is a value here.
- `ge25519_double_scalarmult_vartime`, `ge25519_mul_l`, `sc25519_is_canonical` and random key pairs: not needed for the results above.
- The rest of the X-CASH core: wallet, consensus, network and storage code.
