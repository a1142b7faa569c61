# Models of a decompressor, a cipher, a media scheduler and packetisers

The repository is a collection of separate programs. This project models the ones that hold real algorithms and proves what
they are for. `dafny verify dfyconfig.toml` checks all of it.

**Inflating (deflate.js).** `BitStreams`, `Huffman`, `HuffmanTrees`, `FixedCodes`, `Window`, `Inflate`, `InflatorObjects`: the
bit reader, canonical codes, code trees, block state machine and trimmed output buffer as objects with mutable fields, each
proved against `Inflate`, a reference decoder over the whole data that keeps the whole history. `Deflate` is a specification of
the format as an encoder (RFC 1951, sections 3.2.3 to 3.2.7) with free choice of block types, token sequences, code lengths,
repeat codes and padding. `InflateRoundTrip`, `HeaderRoundTrip`, `StreamRoundTrip` and `Decompress` prove that inflating undoes
every such encoding, and that its tables are those of the format; `Encodings` that every text, code, run and copy can be
written, and `Malformed` what becomes of streams that are not encodings. What the tree builder does is settled for every vector
of lengths: which symbols can be reached, when a walk can fall off the tree, both in terms of the Kraft sum. `Utf8` and
`Base64` are the readers around the inflator.

**RSA (rsa.php).** `NumberTheory`, `PrimeTable`, `RsaKeys`, `Decimals`, `RsaText`, `RsaRoundTrip`, `RsaNumbers`, `RsaCipher`:
Fermat's little theorem and its two-prime form from the binomial theorem up, the 570 table entries as primes, extended Euclid,
key generation, powers and the text encoding, up to decryption undoing encryption for every message and all keys; the numbers
in a cipher text are also stated outright, as powers and remainders. The comment in the source calls 9521 and 9533 the largest
pair without saying why. Exactness of double precision does not explain it: products of residues stay below 2^53 for every
modulus up to 94906266, and 9521 * 9533 is 90763693; rounded powers are exact up to there.

**Scheduling filters (msticker.c, msfilter.c).** `FilterGraph`, `Schedules`, `Descents`, `Tickers`: filters, queues and tickers
as objects, a tick as the recursion over stamps, the deferred list and the forced second pass. `Components`, `Assignments`,
`Attaching`, `Linking`, `Histories`: the search for connected filters and the operations that change the graph, as steps from
world to world with one invariant over all of them: marks are cleared, linked filters share a ticker, every attached filter is
connected to a source, and each execution list is exactly the sources of its filters. Linking keeps it if and only if both ends
have the same ticker; unlinking attached filters keeps it if and only if both sides still have a source.

**Packetisers (rfc3984.c, videoenc.c, videodec.c, rfc2429.h, theora.c).** `NalUnits` and `Rfc3984`, `Rfc2429`, `Theora`: sender
and receiver of H.264, H.263 and Theora, with size bounds, marks and round trips. A receiver may start in any state for H.264
and Theora.

**Audio buffers (msqueue.c, alaw.c, msconf.c).** `Bufferizers`, `Alaw`, `Conference`, `Voices`, `Mixer`: a byte stream over
chains of blocks, an encoder that does not depend on how its input was cut, and a mixer that gives everyone the others.

**Connectivity checks (ice.c).** `Ice`: states of candidate pairs over runs of STUN messages.

`Octets`, `Powers` and `Results` hold what the others share.

Where the code and its own documentation disagree, the model follows the code:

- The H.263 search for start codes is documented to return the last one below the packet size. It moves two bytes for each
  step that it counts, so it looks at every other pair only, and may look at almost twice that many bytes. It does what is
  documented if and only if the zero pairs lie at the right distances (`Rfc2429.FoundIsDocumentedIff`, with both failures in
  `Rfc2429.OddPairIsMissed` and `Rfc2429.LatePairIsTaken`); packets stay within bounds because they are split again.
- The test of a stored block's length against its complement accepts every pair of numbers without a common bit
  (`StreamRoundTrip.LengthTestIffDisjoint`, and `StreamRoundTrip.WrongComplementIsAccepted` for one).
- RFC 3984, section 5.7, asks for the highest importance of the aggregated NAL units in an aggregation packet; the code takes
  the first one's. `NalUnits.ObeysIffFirstIsHighest` says when that is right, `Rfc3984.Rfc3984Context.Pack` for which frames,
  and `Rfc3984.ImportantFrameDisobeys` gives a frame for which it is wrong.
- The Base64 reader's test for misplaced padding compares a misspelled name and never fails. `Base64.ReadsIffWellPadded` says
  which texts are read, `Base64.EndsIffNotOverPadded` for which the reader ends at all; after `A===` it does not
  (`Base64.ExtraPaddingIsAccepted`).
- The conference mixer's discard loop has no exit of its own when voice detection is off. `Conference.MixEndsIff` says when
  mixing ends, and `Conference.FreshConferenceIsStuck` gives a conference in which it does not.

## Model

| member | source | states |
|---|---|---|
| BitStreams.BitReader.ReadBit | javascript_binaryenc/javascript_binaryenc/deflate.js:91-103 | one bit, least significant first in each byte, is the data bit at the cursor, which moves by one; past the end it throws |
| BitStreams.BitReader.Align | javascript_binaryenc/javascript_binaryenc/deflate.js:104 | the cursor moves to the next byte boundary, and nowhere if it stands on one |
| BitStreams.BitReader.ReadLSB | javascript_binaryenc/javascript_binaryenc/deflate.js:105-112 | the number whose digits are the next bits, lowest first, or the exception of the bit that is missing |
| Huffman.BuildCodes | javascript_binaryenc/javascript_binaryenc/deflate.js:297-333 | counting and numbering gives every used symbol its canonical code: first code of its length plus its rank among symbols of that length |
| Huffman.CanonicalOrder | javascript_binaryenc/javascript_binaryenc/deflate.js:297-333 | codes of one length follow symbol order, and a shorter code comes before every longer one bit by bit (RFC 1951, section 3.2.2) |
| Huffman.PrefixFree | javascript_binaryenc/javascript_binaryenc/deflate.js:297-333 | no code is the beginning of another symbol's code, for any vector of lengths |
| Huffman.KraftIsEndCode | javascript_binaryenc/javascript_binaryenc/deflate.js:314-321 | the codes in use take up exactly the Kraft sum of the code space |
| Huffman.CodesFitIffKraft | javascript_binaryenc/javascript_binaryenc/deflate.js:297-333 | all codes fit their lengths if and only if the Kraft sum is at most one |
| Huffman.BuildTree | javascript_binaryenc/javascript_binaryenc/deflate.js:372-387 | from canonical codes, the tree built is the tree of the code, for every vector of lengths up to 15, oversubscribed ones included |
| Huffman.BuildTreeBranch | javascript_binaryenc/javascript_binaryenc/deflate.js:389-424 | the branch below a prefix is the code tree's node there; the recursion ends because the prefix stays within the longest length |
| HuffmanTrees.CodeReachesSymbol | javascript_binaryenc/javascript_binaryenc/deflate.js:389-424 | walking the bits of a code that fits its length ends at exactly that symbol's leaf, for any vector of lengths |
| HuffmanTrees.ReachedSymbolHasCode | javascript_binaryenc/javascript_binaryenc/deflate.js:389-424 | whatever bits reach a symbol are the bits of its code, so a symbol is reached in one way only |
| HuffmanTrees.ReachableIffFits | javascript_binaryenc/javascript_binaryenc/deflate.js:389-424 | a used symbol can be reached if and only if its code fits its length |
| HuffmanTrees.EverySymbolReachableIffKraft | javascript_binaryenc/javascript_binaryenc/deflate.js:372-424 | no used symbol is lost if and only if the Kraft sum is at most one |
| HuffmanTrees.FullIffKraft | javascript_binaryenc/javascript_binaryenc/deflate.js:389-424 | no walk can meet a missing branch if and only if the Kraft sum is at least one, oversubscribed vectors included |
| HuffmanTrees.FullMeansNoNull | javascript_binaryenc/javascript_binaryenc/deflate.js:443-446 | in a full tree every bit string reaches a leaf on its way or ends inside the tree, so no walk meets a missing branch |
| HuffmanTrees.CodesFitMachineWords | javascript_binaryenc/javascript_binaryenc/deflate.js:319-328 | codes of up to 320 symbols and 15 bits stay within 32-bit integers, so the shifts lose nothing |
| FixedCodes.FixedCode | javascript_binaryenc/javascript_binaryenc/deflate.js:340-359 | the formulas for fixed literal codes are the canonical codes of the lengths of RFC 1951, section 3.2.6 |
| FixedCodes.FixedDistanceCode | javascript_binaryenc/javascript_binaryenc/deflate.js:364-368 | the fixed distance codes are the canonical codes of 32 lengths of five |
| FixedCodes.InitializeStaticTrees | javascript_binaryenc/javascript_binaryenc/deflate.js:335-370 | the static trees are the code trees of the fixed lengths |
| InflatorObjects.WalkTree | javascript_binaryenc/javascript_binaryenc/deflate.js:443-446 | the walk finds the symbol at the cursor and stops after its code, or throws where the data ends or a branch is missing |
| InflatorObjects.ReadTreeLengths | javascript_binaryenc/javascript_binaryenc/deflate.js:426-480 | the two length vectors of a dynamic block, as the reference reader gets them from the same bits, and the cursor after them; undefined lengths after a leading repeat code throw once all are read |
| InflatorObjects.Inflator.DecodeItem | javascript_binaryenc/javascript_binaryenc/deflate.js:523-611 | the next item and the next state of the decoder are those of the reference decoder, over all three block types and both states |
| InflatorObjects.Inflator.ReadStoredBlock | javascript_binaryenc/javascript_binaryenc/deflate.js:533-549 | a stored block: after it the bit reader is empty and the raw reader stands at its cursor, so both are back in step |
| InflatorObjects.Inflator.FillBuffer | javascript_binaryenc/javascript_binaryenc/deflate.js:491-511 | items are decoded until a byte is there, and the trimmed buffer holds the end of the whole history |
| InflatorObjects.Inflator.ReadByte | javascript_binaryenc/javascript_binaryenc/deflate.js:490-521 | the next byte of the expansion, -1 exactly at its end, or the exception that cuts it; bytes before an exception are those of the items decoded so far; trimming keeps the window and the bound on the buffer |
| InflatorObjects.AppendItem | javascript_binaryenc/javascript_binaryenc/deflate.js:495-510 | the push loops append to the buffer what the item appends to the whole history |
| InflatorObjects.ReadToEnd | javascript_binaryenc/javascript_binaryenc/deflate.js:137-152 | reading to the end gives exactly the rest of the expansion |
| Window.ItemsAreBounded | javascript_binaryenc/javascript_binaryenc/deflate.js:566-610 | no stream, however malformed, yields a distance beyond 32768, a copy beyond 258 or a stored block beyond 65535 |
| Window.CopyInWindow | javascript_binaryenc/javascript_binaryenc/deflate.js:503-509 | copying inside the window, overlap included, appends the same bytes as copying inside the untrimmed history |
| Window.ApplyInWindow | javascript_binaryenc/javascript_binaryenc/deflate.js:495-510 | every bounded item does to a long enough buffer what it does to the history, and adds at most 65535 entries |
| InflateRoundTrip.SymbolReadsBack | javascript_binaryenc/javascript_binaryenc/deflate.js:566-571 | reading the bits of a usable symbol's code yields that symbol and the position after it |
| InflateRoundTrip.CopyOverlaps | javascript_binaryenc/javascript_binaryenc/deflate.js:503-509 | pushing byte after byte repeats the copied string with the period of its distance, as the format asks |
| InflateRoundTrip.TokensDecode | javascript_binaryenc/javascript_binaryenc/deflate.js:566-610 | the bits of valid literals and copies and an end of block decode to their expansion and leave the decoder after them |
| HeaderRoundTrip.HeaderReadsBack | javascript_binaryenc/javascript_binaryenc/deflate.js:426-480 | the bits of a dynamic header, repeat codes included, are read back as its two length vectors |
| StreamRoundTrip.LengthTestIffDisjoint | javascript_binaryenc/javascript_binaryenc/deflate.js:537 | the test on LEN and NLEN accepts exactly the pairs that share no set bit, which is weaker than one's complement |
| StreamRoundTrip.WrongComplementIsAccepted | javascript_binaryenc/javascript_binaryenc/deflate.js:535-547 | a stored block whose NLEN is 0 instead of the complement of 1 is accepted |
| StreamRoundTrip.BlockDecodes | javascript_binaryenc/javascript_binaryenc/deflate.js:523-611 | the bits of one stored, fixed or dynamic block decode to its expansion; after a stored block the cursor is on a byte boundary |
| StreamRoundTrip.InflateRecovers | javascript_binaryenc/javascript_binaryenc/deflate.js:482-612 | every well-formed stream of blocks, whatever follows it, expands to what it stands for |
| StreamRoundTrip.InflateInvertsEncode | javascript_binaryenc/javascript_binaryenc/deflate.js:482-612 | expanding the bytes of an encoded stream gives back what the stream stands for |
| Decompress.InflateAll | javascript_binaryenc/javascript_binaryenc/deflate.js:482-612 | a fresh inflator read to its end returns exactly the expansion; for every well-formed stream at the start of the data that is its plain text |
| Decompress.LengthTableIsFormat | javascript_binaryenc/javascript_binaryenc/deflate.js:281-286 | the table of lengths is that of RFC 1951, section 3.2.5: the additional bits of each symbol by formula, and each start the one before plus what its bits span |
| Decompress.DistanceTableIsFormat | javascript_binaryenc/javascript_binaryenc/deflate.js:288-293 | the table of distances likewise |
| Decompress.ClenMapIsFormat | javascript_binaryenc/javascript_binaryenc/deflate.js:295 | code lengths are sent for the repeat codes and 0 first, then for 8 and its neighbours outwards |
| Decompress.FixedLengthsAreFormat | javascript_binaryenc/javascript_binaryenc/deflate.js:340-368 | the lengths of the fixed codes are 8, 9, 7 and 8 bits up to symbols 143, 255, 279 and 287, and 5 for distances |
| Decompress.EveryLengthHasCode | javascript_binaryenc/javascript_binaryenc/deflate.js:281-286 | every length within the table's reach has a symbol and additional bits |
| Decompress.EveryDistanceHasCode | javascript_binaryenc/javascript_binaryenc/deflate.js:288-293 | every distance within the table's reach has a symbol and additional bits |
| Decompress.EveryCopyHasToken | javascript_binaryenc/javascript_binaryenc/deflate.js:281-293 | every copy of 3 to 258 bytes from a distance of 1 to 32768 can be written as a token |
| Encodings.EveryCopyIsWritable | javascript_binaryenc/javascript_binaryenc/deflate.js:566-610 | with fixed codes every copy of 3 to 258 bytes from within the window is written by some valid token and repeats those bytes |
| Encodings.EveryVectorHasHeader | javascript_binaryenc/javascript_binaryenc/deflate.js:426-480 | every two vectors of code lengths that the decoder can read have a dynamic header |
| Encodings.EveryRunIsWritable | javascript_binaryenc/javascript_binaryenc/deflate.js:436-456 | every run of code lengths, repeats included, can be written |
| Encodings.EveryTextHasStream | javascript_binaryenc/javascript_binaryenc/deflate.js:482-612 | every text is what some fixed and some dynamic stream stands for, so the round trip speaks about all texts |
| Malformed.ReservedLengthThrows | javascript_binaryenc/javascript_binaryenc/deflate.js:576-578 | a length symbol above 285 throws, whatever the data |
| Malformed.ReservedDistanceIsUndefined | javascript_binaryenc/javascript_binaryenc/deflate.js:595-605 | a copy with a reserved distance symbol is not refused: it appends undefined entries |
| Malformed.ReservedBlockThrows | javascript_binaryenc/javascript_binaryenc/deflate.js:558-559 | block type 3 throws |
| Malformed.MissingBlockThrows | javascript_binaryenc/javascript_binaryenc/deflate.js:528-530 | data that ends before a block throws |
| Malformed.CutStoredThrows | javascript_binaryenc/javascript_binaryenc/deflate.js:542-547 | a stored block with fewer bytes than it announces throws |
| Utf8.FindPrefix | javascript_binaryenc/javascript_binaryenc/deflate.js:233-241 | the loop over prefixes finds how many bits of the first byte count, for all bytes from 128 on |
| Utf8.Utf8Translator.ReadContinued | javascript_binaryenc/javascript_binaryenc/deflate.js:244-250 | the continuation bytes give six bits each; a byte that is not one, or the end, throws |
| Utf8.Utf8Translator.ReadChar | javascript_binaryenc/javascript_binaryenc/deflate.js:213-274 | the next UTF-16 unit, with the pending half of a surrogate pair and the mark handled as by the reference function |
| Utf8.TextReads | javascript_binaryenc/javascript_binaryenc/deflate.js:213-274 | after the start, the UTF-8 bytes of any Unicode scalar values are read as their UTF-16 units, surrogate pairs included |
| Utf8.TextRoundTrip | javascript_binaryenc/javascript_binaryenc/deflate.js:209-275 | from the start too, except that one leading U+FEFF, and only that one, is dropped |
| Utf8.SurrogatesTell | javascript_binaryenc/javascript_binaryenc/deflate.js:260-266 | the unit of a character up to U+FFFF is its number; beyond, its two units are a high and a low surrogate from which the number follows |
| Utf8.Malformed | javascript_binaryenc/javascript_binaryenc/deflate.js:233-249 | a byte that starts no sequence throws, and so does a sequence that is not continued |
| Utf8.CutShort | javascript_binaryenc/javascript_binaryenc/deflate.js:244-250 | a character whose bytes end early throws |
| Utf8.SixBytes | javascript_binaryenc/javascript_binaryenc/deflate.js:229-251 | the form of six bytes of RFC 2279 is read as its number |
| Utf8.FiveBytes | javascript_binaryenc/javascript_binaryenc/deflate.js:229-251 | and so is the form of five bytes |
| Utf8.OverlongIsRead | javascript_binaryenc/javascript_binaryenc/deflate.js:244-253 | more bytes than needed are not refused: 0xC0 0x80 is read as the character 0 |
| Utf8.ReadToEnd | javascript_binaryenc/javascript_binaryenc/deflate.js:137-152 | reading to the end gives exactly the units that are left |
| Base64.Base64Reader.ReadByte | javascript_binaryenc/javascript_binaryenc/deflate.js:37-83 | the next byte on 32-bit signed words, the end, or the exception, as the reference function has it |
| Base64.LettersAreAlphabet | javascript_binaryenc/javascript_binaryenc/deflate.js:28 | the 64 letters are those of RFC 4648, table 1, in order |
| Base64.EncodedFoobar | javascript_binaryenc/javascript_binaryenc/deflate.js:37-83 | the encodings of the beginnings of foobar are those of RFC 4648, section 10 |
| Base64.ReadsIffAccepted | javascript_binaryenc/javascript_binaryenc/deflate.js:31-84 | from any group boundary, exactly the accepted texts are read to the end without an exception, and as exactly the bytes of their groups |
| Base64.ReadsIffWellPadded | javascript_binaryenc/javascript_binaryenc/deflate.js:31-84 | a text is read to its end without an exception if and only if its significant characters come in fours, all of the alphabet, with padding only as the last one or two of a four |
| Base64.AcceptedIffWellPadded | javascript_binaryenc/javascript_binaryenc/deflate.js:39-63 | the condition on groups and the condition on characters are the same |
| Base64.EndsIffNotOverPadded | javascript_binaryenc/javascript_binaryenc/deflate.js:31-84 | reading comes to -1 or an exception if and only if no whole group, with only whole groups before it, has more than two padding characters |
| Base64.TextRoundTrip | javascript_binaryenc/javascript_binaryenc/deflate.js:31-84 | text whose significant characters are the Base64 form of some bytes (RFC 4648, section 4) is read as exactly those bytes, then -1; blanks may stand anywhere |
| Base64.InnerPaddingIsAccepted | javascript_binaryenc/javascript_binaryenc/deflate.js:36-78 | encodings one behind the other, padding inside the text included, are read as one |
| Base64.ExtraPaddingIsAccepted | javascript_binaryenc/javascript_binaryenc/deflate.js:55-58 | three padding characters in a group are accepted, since the test against them compares a misspelled name; the number of bits goes below zero and the reader never comes to an end |
| PrimeTable.NoSmallFactorMeansPrime | dynamicwebBK/rsa.php:49-80 | below 101 squared, a number without a prime factor below 100 is prime, so every table entry is prime |
| NumberTheory.Fermat | dynamicwebBK/rsa.php:226-268 | Fermat's little theorem for every base |
| NumberTheory.RsaIdentity | dynamicwebBK/rsa.php:226-298 | x^n mod pq is x for every x below pq, coprime or not, when n is 1 modulo (p-1)(q-1) |
| RsaKeys.Mo | dynamicwebBK/rsa.php:121-123 | the remainder: below the modulus and congruent to the number |
| RsaKeys.FloatQuotientExact | dynamicwebBK/rsa.php:121-123 | rounding that is monotone, exact on integers up to 2^53 and within half a unit in the last place gives every quotient of such integers the right integer part |
| RsaKeys.MoRoundedIsMo | dynamicwebBK/rsa.php:121-123 | the remainder with every operation rounded is the remainder, for all numbers below 2^53 |
| RsaKeys.ProductsAreExact | dynamicwebBK/rsa.php:256-268 | the products that powmod forms of residues stay below 2^53 for every modulus up to 94906266 |
| RsaKeys.TableModulusIsSmall | dynamicwebBK/rsa.php:34-37 | the product of any two table primes is below that bound |
| RsaKeys.GCD | dynamicwebBK/rsa.php:161-171 | the greatest common divisor: a common divisor that every common divisor divides |
| RsaKeys.OnlySafePrimesFail | dynamicwebBK/rsa.php:183-203 | a table entry e is not coprime to (p-1)(q-1) if and only if p or q is 2e+1 |
| RsaKeys.SmallestNeverFails | dynamicwebBK/rsa.php:187-192 | the smallest entry 4507 is always coprime, so the downward scan succeeds from any start |
| RsaKeys.TofindE | dynamicwebBK/rsa.php:183-203 | the exponent found is a table prime coprime to (p-1)(q-1): the first one from the start downwards without a factor in common with pi |
| RsaKeys.Extend | dynamicwebBK/rsa.php:130-158 | the inverse lies below pi, and times e it is congruent to the greatest common divisor |
| RsaKeys.InverseUnique | dynamicwebBK/rsa.php:130-158 | there is only one inverse below pi |
| RsaKeys.GenerateKeys | dynamicwebBK/rsa.php:92-118 | n is the product of the primes, e is coprime to (p-1)(q-1) and d is its inverse; neither is 0, so the retry loop runs once |
| RsaKeys.PowMod | dynamicwebBK/rsa.php:256-268 | base to the exponent, reduced by the modulus, for every base; 1 for exponent 0 |
| RsaKeys.PowModRounded | dynamicwebBK/rsa.php:256-268 | with every product and remainder rounded the same power comes out, for every modulus up to 94906266 and every base below it |
| Decimals.FromToDecimal | dynamicwebBK/rsa.php:245-251 | writing a number in decimal and reading it gives the number |
| Decimals.ToFromDecimal | dynamicwebBK/rsa.php:284-291 | reading a digit string without leading zero and writing it gives the string |
| RsaCipher.RsaEncrypt | dynamicwebBK/rsa.php:226-253 | the numbers of the cipher text are those of the message, three characters each, to the power e, modulo n, in decimal and separated by single spaces |
| RsaCipher.RsaDecrypt | dynamicwebBK/rsa.php:274-299 | the plain text is spelt by the numbers of the cipher text to the power d, modulo n; if those are the numbers of a message, it is that message |
| RsaNumbers.CipherNumber | dynamicwebBK/rsa.php:226-266 | the k-th number of a cipher text is the number of the k-th three characters to the power e, modulo n; for three characters that number is 10^7, their codes less 30 in two digits each, and 1 |
| RsaNumbers.DecryptedPowers | dynamicwebBK/rsa.php:274-299 | what any cipher text decrypts to is spelt by each of its numbers to the power d, modulo n, without first and last digit; blanks in excess change nothing |
| RsaNumbers.DecryptedNumbers | dynamicwebBK/rsa.php:274-299 | a cipher text whose numbers to the power d, modulo n, are those of a message decrypts to that message |
| RsaNumbers.StrippingKeepsNumbers | dynamicwebBK/rsa.php:278-282 | the stripping loop, which skips the piece after one that it removes, takes no number away |
| RsaRoundTrip.PowersInvert | dynamicwebBK/rsa.php:256-268 | the private exponent undoes the public one on every number below the modulus |
| RsaRoundTrip.BlockBelowModulus | dynamicwebBK/rsa.php:213-224 | every block of three letters is a number below every modulus of table primes |
| RsaRoundTrip.PiecesOfCipher | dynamicwebBK/rsa.php:274-282 | splitting the trimmed cipher text and dropping empty pieces gives back the encrypted numbers |
| RsaRoundTrip.BlockRoundTrip | dynamicwebBK/rsa.php:245-291 | a block encrypted, decrypted and stripped of its ones is the letter codes it was made of |
| RsaRoundTrip.DecryptInvertsEncrypt | dynamicwebBK/rsa.php:226-299 | decrypting the encryption of any message over ASCII 32 to 126 gives the message, for all keys of two distinct table primes |
| RsaCipher.KeysThenMessage | dynamicwebBK/rsa.php:92-299 | generating keys, encrypting and decrypting one after the other returns the message |
| FilterGraph.WellLinkedGraph | 0.1.0/mediastreamer2/src/msfilter.c:126-153 | in well-linked pins, successors and predecessors are each other's converse |
| Schedules.Reached | 0.1.0/mediastreamer2/src/msticker.c:206-211 | everything downstream of some filters: it contains them and is closed under links |
| Schedules.ReachedIsLeast | 0.1.0/mediastreamer2/src/msticker.c:206-211 | it is contained in every closed set that contains them |
| Schedules.FirstPassRunsTheUnstuck | 0.1.0/mediastreamer2/src/msticker.c:219-233 | the first pass runs exactly the filters that belong to no set whose members all wait for one another or are unlisted roots |
| Schedules.AcyclicRunsInOrder | 0.1.0/mediastreamer2/src/msticker.c:197-233 | without loops and with every root listed, the first pass runs all filters, each after everything upstream, and the forced pass runs none |
| Tickers.InputsHaveData | 0.1.0/mediastreamer2/src/msfilter.c:218-225 | true if and only if some input queue holds a message |
| Tickers.Process | 0.1.0/mediastreamer2/src/msfilter.c:198-201 | one call of a filter's own work, which the filter's counter advances by one |
| Tickers.CallProcess | 0.1.0/mediastreamer2/src/msticker.c:182-195 | a source works once, any other filter once if and only if a message waited; its counter of work advances by exactly that, and afterwards its inputs are empty |
| Tickers.CanProcess | 0.1.0/mediastreamer2/src/msticker.c:169-180 | true if and only if everything upstream carries the tick's stamp |
| Descents.DescentThen | 0.1.0/mediastreamer2/src/msticker.c:206-211 | a descent followed by one that settles a filter of its frontier is a descent |
| Tickers.RunGraph | 0.1.0/mediastreamer2/src/msticker.c:197-217 | a descent: new stamps are exactly the logged filters, once each, within reach; in order unless forced; every successor is stamped or deferred, and no other filter becomes ready; the logged filters, and no others, were let work once |
| Tickers.RunGraphs | 0.1.0/mediastreamer2/src/msticker.c:219-233 | a pass: the whole list and everything downstream runs, first in order, then the deferred filters by force |
| Tickers.NothingWaits | 0.1.0/mediastreamer2/src/msticker.c:197-217 | when what ran is closed downstream, no queue holds a message |
| Tickers.Tick | 0.1.0/mediastreamer2/src/msticker.c:336-337 | on any graph, loops included, exactly the filters downstream of the execution list run, once each, the first k in order; a tick whose forced pass runs nothing leaves all queues empty; a source in the log has worked exactly once more, any other logged filter once more if a message waited when it was stamped, and no other filter has worked |
| Tickers.Run | 0.1.0/mediastreamer2/src/msticker.c:335-337 | any number of ticks over a graph without loops: each runs all filters in topological order, and all queues end empty; each source has worked once per tick, any other filter at most that often |
| Components.FindFilters | 0.1.0/mediastreamer2/src/msticker.c:76-96 | a search over links in both directions: what it appends is what it newly marks, without duplicates, and it leaves no neighbour out |
| Components.SearchIsComponent | 0.1.0/mediastreamer2/src/msticker.c:76-96 | started with nothing marked, it finds exactly the connected component, once each |
| Components.ComponentIsShared | 0.1.0/mediastreamer2/src/msticker.c:76-96 | connected filters have the same component |
| Assignments.SourcesOfElements | 0.1.0/mediastreamer2/src/msticker.c:98-108 | the sources of a list are exactly its filters without inputs, without duplicates |
| Assignments.RemoveEachIsWithout | 0.1.0/mediastreamer2/src/msticker.c:158-160 | removing sources one by one leaves exactly the other filters, in their order |
| Assignments.WithoutUndoesAppend | 0.1.0/mediastreamer2/src/msticker.c:132 | taking out what was appended gives the list back |
| Assignments.MovedIsAssigned | 0.1.0/mediastreamer2/src/msticker.c:128-132 | moving a whole component to a ticker, or off it, keeps linked filters on one ticker and every attached filter connected to a source |
| Attaching.Attach | 0.1.0/mediastreamer2/src/msticker.c:110-136 | everything connected moves to the ticker, its sources are appended to the list, and the invariant holds; it aborts if and only if the filter is free and no source is connected |
| Attaching.Detach | 0.1.0/mediastreamer2/src/msticker.c:140-166 | everything connected is let go and its sources leave the list; it never aborts, and the invariant survives if and only if the filter was not attached to another ticker |
| Attaching.AttachThenDetach | 0.1.0/mediastreamer2/src/msticker.c:110-166 | detaching undoes attaching: the same assignment and the same execution list |
| Linking.Link | 0.1.0/mediastreamer2/src/msfilter.c:126-137 | two free pins get one empty queue, the graph gets one link; the invariant survives if and only if both filters have the same ticker |
| Linking.Unlink | 0.1.0/mediastreamer2/src/msfilter.c:139-153 | two pins with the same queue are emptied, the graph loses at most that link; the invariant survives if and only if the filters are detached or each still has a source |
| Linking.LinkedIsAssigned | 0.1.0/mediastreamer2/src/msfilter.c:126-137 | one link more keeps an assignment good if and only if both ends have the same ticker |
| Linking.UnlinkedIsAssigned | 0.1.0/mediastreamer2/src/msfilter.c:139-153 | one link less keeps it good if and only if the ends are detached or each side still has a source |
| Histories.FreshIsGood | 0.1.0/mediastreamer2/src/msfilter.c:79-91 | filters and tickers that were just made are in a good state |
| Histories.OwnGraph | 0.1.0/mediastreamer2/src/msticker.c:76-108 | the filters of a ticker are linked among themselves only, and its list is within them, so each ticker's thread may run by itself |
| Histories.Perform | 0.1.0/mediastreamer2/src/msticker.c:76-338 | one operation makes of links, tickers, execution lists, ticks and work done exactly what it is for: two free pins linked, two pins unlinked, a component attached or detached, a tick run |
| Histories.PerformAll | 0.1.0/mediastreamer2/src/msticker.c:76-338 | any history of linking, unlinking, attaching, detaching and ticking, with any number of tickers, keeps marks cleared, lists exact and stamps within their tickers; from world to world each allowed operation does what it is for and no other does anything, up to an attachment without a source, which ends the program |
| NalUnits.HeaderRoundTrip | 0.1.0/mediastreamer2/src/rfc3984.c:27-37 | importance and type come back from a NAL header |
| NalUnits.FuHeaderRoundTrip | 0.1.0/mediastreamer2/src/rfc3984.c:82-91 | start, end and type come back from a fragmentation header |
| NalUnits.ClearedIsSame | 0.1.0/mediastreamer2/src/rfc3984.c:101 | a rebuilt NAL unit equals the original if and only if its forbidden bit is 0 |
| NalUnits.SplitGrouped | 0.1.0/mediastreamer2/src/rfc3984.c:208-230 | splitting an aggregation packet of at least two NAL units gives them back in order |
| NalUnits.CutAggregate | 0.1.0/mediastreamer2/src/rfc3984.c:208-230 | an aggregation packet that is cut short still gives the NAL units in front of the one that was cut |
| NalUnits.AggregateBytes | 0.1.0/mediastreamer2/src/rfc3984.c:60-80 | the bytes of an aggregate of two: type 24 and the importance of the first, and sizes in two bytes, high byte first |
| NalUnits.FragmentBytes | 0.1.0/mediastreamer2/src/rfc3984.c:82-101 | the bytes of a fragment: type 28 and the importance, then start and end in the two highest bits and the type |
| NalUnits.NoStartNoUnit | 0.1.0/mediastreamer2/src/rfc3984.c:187-196 | fragments none of which starts a NAL unit change nothing when nothing was started before |
| Rfc3984.LostStart | 0.1.0/mediastreamer2/src/rfc3984.c:187-196 | when the packet that starts a fragmented NAL unit is lost, the others leave no trace of it |
| NalUnits.LastLetsAllOut | 0.1.0/mediastreamer2/src/rfc3984.c:240-245 | when only the last packet of a frame is marked, everything comes out with it and nothing before |
| NalUnits.ObeysIffFirstIsHighest | 0.1.0/mediastreamer2/src/rfc3984.c:60-80 | an aggregation packet has the highest importance of its NAL units (RFC 3984, section 5.7) if and only if none of them is more important than the first |
| NalUnits.ImportanceIsLost | 0.1.0/mediastreamer2/src/rfc3984.c:60-80 | an aggregate of a NAL unit of importance 0 and one of importance 3 claims importance 0 |
| Rfc3984.FallingImportanceObeys | 0.1.0/mediastreamer2/src/rfc3984.c:116-161 | frames whose importance never rises are sent by the rule, whatever the packet size |
| Rfc3984.ImportantFrameDisobeys | 0.1.0/mediastreamer2/src/rfc3984.c:116-161 | a frame of those two NAL units breaks the rule for every payload limit of at least 8 |
| Rfc3984.FragNaluAndSend | 0.1.0/mediastreamer2/src/rfc3984.c:93-113 | at least two fragments, one start and one end, none above maxsize; the receiver, whatever it had begun, gets the NAL unit with its forbidden bit cleared |
| Rfc3984.ConcatNalus | 0.1.0/mediastreamer2/src/rfc3984.c:70-80 | a group and one more NAL unit, the aggregation header added with the second |
| Rfc3984.GroupedSize | 0.1.0/mediastreamer2/src/rfc3984.c:118-143 | the running size is the true size of the group as an aggregation packet |
| Rfc3984.CarriedUnchanged | 0.1.0/mediastreamer2/src/rfc3984.c:93-246 | a frame arrives unchanged if and only if no NAL unit that had to be fragmented has its forbidden bit set |
| Rfc3984.Rfc3984Context.Pack | 0.1.0/mediastreamer2/src/rfc3984.c:116-161 | all packets fit maxsz, exactly the last is marked, and any receiver gets what it had queued and then the frame's NAL units in order, over any mix of packet kinds; all packets have the importance that RFC 3984 asks for if and only if in each group that goes out together the first NAL unit is the most important; the packets are, group by group, those of the greedy grouping, large NAL units in fragments as large as they may be |
| Rfc3984.GroupsAreGreedy | 0.1.0/mediastreamer2/src/rfc3984.c:120-147 | the groups that go out together are the NAL units in order, and each takes as many as fit: a group of several starts below half of the packet size and stays below it, and the next one would not have fitted |
| Rfc3984.Rfc3984Context.AggregateFua | 0.1.0/mediastreamer2/src/rfc3984.c:164-199 | starting, continuing and ending a fragmented NAL unit, an unfinished one being replaced; a continuation without a start is dropped |
| Rfc3984.Rfc3984Context.Unpack | 0.1.0/mediastreamer2/src/rfc3984.c:202-246 | one packet changes the context and lets NAL units out as the specification says, a malformed aggregate keeping what came before the damage; a continuation without a start leaves no trace |
| Rfc3984.SendFrames | 0.1.0/mediastreamer2/src/rfc3984.c:116-246 | frames sent one after another come out one by one as their NAL units, in order |
| Rfc2429.SetPKeepsRest | 0.1.0/mediastreamer2/src/rfc2429.h:30-47 | setting P changes no other field of the payload header |
| Rfc2429.HeaderReads | 0.1.0/mediastreamer2/src/rfc2429.h:28-48 | the fields of any payload header are read as they were written |
| Rfc2429.HeaderIsSkipped | 0.1.0/mediastreamer2/src/videodec.c:147-178 | behind any payload header PLEN bytes are skipped, and two zeros are put back if and only if P is set |
| Rfc2429.GetPsc | 0.1.0/mediastreamer2/src/videoenc.c:377-389 | the last zero pair among the pairs examined, which are two bytes apart, or none; and when that is the documented one |
| Rfc2429.FoundIsDocumentedIff | 0.1.0/mediastreamer2/src/videoenc.c:376-389 | the search finds the last zero pair below the packet size if and only if no zero pair lies at an even distance from there up to twice as far, and each at an odd distance below is followed by one at an even distance below |
| Rfc2429.OddPairIsMissed | 0.1.0/mediastreamer2/src/videoenc.c:376-389 | in 1 0 0 1 the search finds nothing, whatever is documented |
| Rfc2429.LatePairIsTaken | 0.1.0/mediastreamer2/src/videoenc.c:376-389 | in 1 1 1 1 0 0 1 with packet size 4 it finds the pair at 4 |
| Rfc2429.SinglePacketSize | 0.1.0/mediastreamer2/src/videoenc.c:376-389 | with packet size 1 nothing is found, which is as documented if and only if no zero pair stands at the start |
| Rfc2429.GeneratePackets | 0.1.0/mediastreamer2/src/videoenc.c:334-374 | the packets of one stretch tile it, at most mtu bytes of the frame each; P is set in the frame's buffer; only the last may be marked |
| Rfc2429.WireSizes | 0.1.0/mediastreamer2/src/videoenc.c:346-371 | packets with P are at most mtu bytes, follow-on packets at most mtu+2 |
| Rfc2429.SplitAndSend | 0.1.0/mediastreamer2/src/videoenc.c:391-414 | the packets tile the frame, the last alone is marked; of a frame that starts with two zeros the receiver rebuilds the frame if and only if mtu is at least 2; the loop ends; the starts are where the search finds them, each two bytes behind the one before, and a packet that a follow-on packet comes after is full |
| Rfc2429.FrameArrives | 0.1.0/mediastreamer2/src/videodec.c:147-178 | faithful packets of a whole frame arrive as the frame if and only if mtu is at least 2, since shorter packets are dropped |
| Rfc2429.Decoder.SkipPacketHeader | 0.1.0/mediastreamer2/src/videodec.c:147-178 | the redundant picture header is skipped and omitted zeros are put back; packets under two bytes are dropped |
| Rfc2429.Decoder.ProcessPacket | 0.1.0/mediastreamer2/src/videodec.c:232-250 | packets pile up until the mark lets the frame out; a dropped packet's mark is lost with it |
| Rfc2429.Transmit | 0.1.0/mediastreamer2/src/videoenc.c:391-414 | a frame split, sent and collected is the frame if and only if mtu is at least 2 |
| Bufferizers.Bufferizer.Put | 0.1.0/mediastreamer2/src/msqueue.c:64-67 | the bytes of a message, over all its blocks, follow those that were there |
| Bufferizers.Bufferizer.PutFromQueue | 0.1.0/mediastreamer2/src/msqueue.c:69-74 | the bytes of all messages, in order |
| Bufferizers.Bufferizer.Read | 0.1.0/mediastreamer2/src/msqueue.c:76-103 | all of the bytes asked for, the oldest first, or none if there are too few; the rest stays, and size is always the number of unread bytes, empty blocks included |
| Alaw.SizeOfPcm | 0.1.0/mediastreamer2/src/alaw.c:59-69 | from 160 to 2240 bytes of PCM in steps of 10 ms |
| Alaw.FramedPiecewise | 0.1.0/mediastreamer2/src/alaw.c:71-84 | cutting a stream piece by piece gives the same packets, timestamps and leftover as cutting it whole |
| Alaw.PacketCount | 0.1.0/mediastreamer2/src/alaw.c:71-84 | as many packets as whole packet sizes in the stream, the remainder left over, and the timestamp advanced by the samples sent, modulo 2^32 |
| Alaw.PacketAt | 0.1.0/mediastreamer2/src/alaw.c:71-84 | the k-th packet has the timestamp of its first sample, and its i-th byte is the compressed i-th of its samples |
| Alaw.Encoder.Process | 0.1.0/mediastreamer2/src/alaw.c:50-85 | packets, timestamps and leftover are those of the bytes buffered and received |
| Alaw.ProcessAll | 0.1.0/mediastreamer2/src/alaw.c:50-85 | over any calls with any messages the packets and timestamps depend only on the bytes in order |
| Conference.Saturate | 0.1.0/mediastreamer2/src/msconf.c:322-328 | the value, limited to 32000 either way |
| Conference.TotalWithoutOwn | 0.1.0/mediastreamer2/src/msconf.c:330-348 | the sum of all contributions less a channel's own is the sum of the others |
| Voices.SampleReadsBack | 0.1.0/mediastreamer2/src/msconf.c:282 | a signed sample of 16 bits stored in little-endian order is read back, negative ones too |
| Voices.OneMoreVoice | 0.1.0/mediastreamer2/src/msconf.c:330-348 | a party that starts to speak adds its samples to what each other party hears, and to nothing that it hears itself |
| Voices.OthersAreHeard | 0.1.0/mediastreamer2/src/msconf.c:282-336 | of stored samples, the sum for a pin is the sum of what the other parties said |
| Conference.Discard | 0.1.0/mediastreamer2/src/msconf.c:256-279 | late data is dropped down to the sound card's, or until voice is found; without detection the last bytes read are kept as the contribution; with detection, reading stops at the first voice or where it must |
| Conference.DiscardLoopEnds | 0.1.0/mediastreamer2/src/msconf.c:258-279 | without voice detection the discard loop ends if and only if what is left over after whole grains does not exceed the sound card's data |
| Conference.DiscardEndsIff | 0.1.0/mediastreamer2/src/msconf.c:253-279 | serving a channel ends if and only if it is not late, or voice detection is on, or the loop it enters comes down to the sound card's data |
| Conference.StuckChannel | 0.1.0/mediastreamer2/src/msconf.c:253-279 | at 8000 Hz, 961 bytes are never brought down to a sound card without any |
| Conference.MixEndsIff | 0.1.0/mediastreamer2/src/msconf.c:253-279 | the mixing loop ends if and only if it is not entered or every channel of the first round can be served; after one round nothing is late any more |
| Conference.FreshConferenceIsStuck | 0.1.0/mediastreamer2/src/msconf.c:364-390 | a conference that has just begun, given 161 bytes from the sound card and 962 on another pin, does not end |
| Conference.DrainsMixEnds | 0.1.0/mediastreamer2/src/msconf.c:253-279 | whole grains on every channel without voice detection are enough |
| Conference.DeliveredDrains | 0.1.0/mediastreamer2/src/msconf.c:369-384 | and they stay so when whole grains come in |
| Conference.DeliveredMeans | 0.1.0/mediastreamer2/src/msconf.c:369-384 | what came in follows what was there; a channel with data has missed nothing and, unless it is the sound card's, is in use |
| Conference.CatchUp | 0.1.0/mediastreamer2/src/msconf.c:215-242 | the sound card's channel is brought down to at most six grains and never below five when it holds more than ten, and is untouched otherwise |
| Conference.Serve | 0.1.0/mediastreamer2/src/msconf.c:244-318 | a channel contributes if and only if it has a grain, gives up bytes from the front only, and is dropped after more than fifteen misses; it gives up one grain, or, when late and without voice detection, everything that the sound card's channel is behind |
| Mixer.ConfState.ConfSum | 0.1.0/mediastreamer2/src/msconf.c:210-320 | the sum is the sum of all contributions; what the sound card keeps is known exactly and less than ten grains; no channel is late afterwards |
| Mixer.ConfState.ConfOutput | 0.1.0/mediastreamer2/src/msconf.c:330-348 | a pin gets the saturated sum of all contributing channels except its own; for channels that hold stored samples, the limited sum of what the others said |
| Voices.RoundIsHeard | 0.1.0/mediastreamer2/src/msconf.c:210-362 | in a round without voice detection in which nothing is dropped, each linked pin hears the samples that were first in line on the others, summed and limited |
| Mixer.ConfState.ConfDispatch | 0.1.0/mediastreamer2/src/msconf.c:350-362 | every linked pin, and no other, gets its message |
| Mixer.ConfState.ShouldProcess | 0.1.0/mediastreamer2/src/msconf.c:165-208 | mixing goes on if and only if the sound card is in use, mixing is enabled or needed, and a grain is there |
| Conference.ActiveMeans | 0.1.0/mediastreamer2/src/msconf.c:181-194 | more than one is active if and only if two parties beside the sound card are in use |
| Mixer.ConfState.Mix | 0.1.0/mediastreamer2/src/msconf.c:386-390 | the loop ends under the exact condition; it goes from round to round in whole grains, and at its end less than a grain of the sound card's data is left |
| Mixer.ConfState.Copy | 0.1.0/mediastreamer2/src/msconf.c:392-432 | without mixing, the sound card and the first linked pin of odd number get each other's whole grains in order, and everyone else keeps everything |
| Mixer.ConfState.ConfProcess | 0.1.0/mediastreamer2/src/msconf.c:364-434 | what came in is delivered and mixed, or passed on between two parties; whole grains are taken from every channel |
| Theora.HeaderRoundTrip | 0.1.0/mediastreamer2/src/theora.c:170-194 | ident, fragment type, data type and count come back from a payload header |
| Theora.PacketizeAndSend | 0.1.0/mediastreamer2/src/theora.c:259-294 | payloads of at most mtu bytes, one more packet than whole mtus in the frame; whatever the receiver had begun, the last packet and none before gives the frame; all but the last carry mtu bytes, and the bytes of each header give whole, start, continuation or end and the size |
| Theora.NoStartNoFrame | 0.1.0/mediastreamer2/src/theora.c:452-480 | continuations and ends without a start complete nothing and leave nothing behind |
| Theora.TheoraDecoder.Unpacketize | 0.1.0/mediastreamer2/src/theora.c:452-480 | one packet's effect on the frame in progress, and the type of data |
| Theora.Transmit | 0.1.0/mediastreamer2/src/theora.c:259-480 | frames sent one after another come out one by one |
| Ice.FirstWorked | 0.1.0/mediastreamer2/src/ice.c:269-291 | the first pair that has worked, or -1 when none has |
| Ice.IceSession.ProcessRequest | 0.1.0/mediastreamer2/src/ice.c:387-466 | a request advances the pairs that it names before the first valid one; the last of them is switched to |
| Ice.IceSession.ProcessAnswer | 0.1.0/mediastreamer2/src/ice.c:498-531 | an answer advances the pairs whose transaction it has; the last that was not valid is switched to |
| Ice.IceSession.ProcessStunMessage | 0.1.0/mediastreamer2/src/ice.c:221-555 | the remote address moves if and only if the switch is to a pair before all that had worked |
| Ice.ChecksOnlyAdvance | 0.1.0/mediastreamer2/src/ice.c:387-531 | over any run no pair goes back, and a valid pair stays valid |
| Ice.ValidMeansBothWays | 0.1.0/mediastreamer2/src/ice.c:387-531 | a pair that starts unchecked is valid if and only if both a request and an answer have reached it |
| Ice.MovesDecrease | 0.1.0/mediastreamer2/src/ice.c:539-553 | each move of the remote address goes to a strictly smaller index, so there are at most as many moves as candidates |
| Ice.MovesIff | 0.1.0/mediastreamer2/src/ice.c:269-553 | the remote address moves if and only if a pair is reached with none that worked up to it, and no later pair that is not valid yet is reached by the same message |
| Ice.BetterPairIsMissed | 0.1.0/mediastreamer2/src/ice.c:498-553 | a message that reaches a pair better than all that worked, and also a worse one, moves nothing |
| Ice.AddressIsBest | 0.1.0/mediastreamer2/src/ice.c:269-553 | after any messages that reach one pair each, the last move went to the best pair that has worked |
| Rfc2429.Mpeg4FragmentAndSend | 0.1.0/mediastreamer2/src/videoenc.c:317-332 | pieces of at most mtu bytes, in order, that add up to the frame, the last alone marked, and all but the last full |

## Left out

- InflatorObjects.Inflator.ReadByte: says nothing about the object after an exception, which the original leaves in the middle of an item.
- Inflate.ReadSymbol: JavaScript numbers appear unbounded; `HuffmanTrees.CodesFitMachineWords` shows that codes of real streams fit 32-bit integers.
- BitStreams.BitReader: `readMSB`, which nothing calls, is not modelled.
- Utf8.Utf8Translator.ReadChar: `readLine`, `unreadChar`, the plain UTF-16 translator and what surrogates come of values beyond U+10FFFF are not stated, beyond the reference function.
- RsaKeys.GenerateKeys: the two primes and the start of the scan for e are parameters instead of random draws.
- RsaKeys.PowModRounded: rounding appears by three properties that rounding to double precision has; where PHP computes with integers instead, `RsaKeys.PowMod` applies.
- RsaCipher.RsaDecrypt: restricted to digits and spaces, since what PHP makes of other strings as numbers is not modelled; a result that the original leaves unset is the empty string.
- Tickers.Process: a filter's own work appears as any number of messages to each output and none left on the inputs; a filter that leaves data on its inputs, or sends to itself, would be called again. Message contents are not modelled.
- Tickers.Tick: tick counters are unbounded, so a stamp never meets the same value again after a wrap-around; threads, locks, sleeping and the wall clock are left out, each operation being one step under the ticker's lock.
- Attaching.Attach: when no source is connected the original ends the program; the model returns -1 and says nothing more. The filters' own preprocess and postprocess hooks are left out.
- Linking.Link: pins are sequences instead of C arrays, and negative pin numbers are left out.
- Rfc3984.Rfc3984Context.Pack: the payload limit is between 3 and 65535 bytes; below 3 the fragmentation loop makes no progress. NAL units that are not fragmented must not be of type 24 or 28, which the receiver takes for its own formats.
- Rfc3984.Rfc3984Context.Unpack: a packet's mark is its value on entry; the original reads it after freeing the message. Empty packets and one-byte fragments, which it would read past, are excluded.
- Rfc2429.Decoder.ProcessPacket: a payload header must be all there, and the codec that consumes the frame is left out.
- Theora.TheoraDecoder.Unpacketize: packets shorter than their header, which the original reads past, are excluded; the resending of codec configuration is left out.
- Bufferizers.Bufferizer.Read: blocks appear by their unread bytes; reference counts and freeing are left out.
- Mixer.ConfState.ConfProcess: a channel's bufferizer appears by its unread bytes, voice detection as an arbitrary verdict and arbitrary changes to the samples; automatic gain and statistics are left out.
- Ice.IceSession.ProcessStunMessage: parsing, user names and transaction identifiers are reduced to which pairs a message names; sockets and answers are left out, as is the restrictive build.
- Codecs, devices, user interface, web pages and the stand-alone scripts of the repository are left out: they call code that is not there, or hold no algorithm beyond those above.
