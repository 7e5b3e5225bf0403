# Verified models from the firmware sources

A Dafny model of four parts of the repository, with proofs over all inputs, runs and interleavings. Files in
`.dfy` hold everything; `dafny verify dfyconfig.toml` checks the project.

**The DEFLATE compressor** (`archival/gzip.c`). The model follows the C code from the bit writer up to `zip`, with
the same arrays updated in place by the same loops. `Inflate` is a decoder written from RFC 1951 alone, `MemberReader`
one written from RFC 1952, and the main theorem (`Deflation.Deflate`, `Gzip.Zip`) says that they turn the file back into
the input, for every input and every way the reads cut it up. `CodeRules` and `KnownStreams` hold the decoders
themselves to the standards, by closed forms and by complete streams. On the way: the sliding window and its hash chains (`HashChains`, `Matcher`),
lazy matching (`Deflation`), the packed token buffer (`TokenBuffer`), the choice between three encodings with exact
lengths (`BlockFlush`), the Huffman builder with its overflow repair (`Heap`, `HuffmanTree`, `Huffman`,
`BitLengths`, `CodeLengths`, `TreeBuild`), its optimality (`OptimalCode`), canonical codes (`CanonicalCode`),
run-length coded trees (`RunLength`, `TreeSend`, `TreeHeader`), and the bit writer (`BitWriter`). `FarInput` holds the
input on which a disabled assertion fails.

**The NVRAM store** (`nvram-lib`). The CRC and what it detects (`Crc`), as a long division of bit strings
(`CrcDivision`), the image as records and as a map
(`NvramStore`, `NvramFile`), load and commit (`NvramFlash`), and the locking protocol as a state machine over single
system calls (`NvramProtocol`, `NvramRuns`, `NvramLock`): over every run the bytes of a file stand for a map.

**The dpkg tables** (`archival/dpkg.c`). Double hashing on prime sizes (`Probing`, `HashTables`, `DpkgTables`), the
version order (`Versions`) and what it means for the texts (`VersionText`), status lines (`StatusWords`), dependency lists from their text (`DependencyText`,
`DependencyLists`), and the dependency check on the tables (`Dependencies`) and what it means for the status lines
(`DependencyLaws`).

**The array codec** (`nvram_cache.c`). Parser and printer of grids, for every value (`Grid`), and their way through the
store (`GridStore`).

## How to read the model

- Bytes are integers 0..255. C's 16- and 32-bit truncations are written out where they can matter; hashes and CRCs
  are bit-vectors.
- A writer's stream is a list of bits: bytes flushed, bytes buffered, and bits not yet in a byte.
- Matches are stated in absolute input positions. `match_start` is kept modulo 2^32 as in the C code; after the
  window has moved it may have wrapped, and the distance is still right.
- Bytes behind `strstart + lookahead` are arbitrary. The array of the window has 258 more bytes than the 64K of the
  source, so that `longest_match` can be run where it reads behind the window; the ghost flag `far` records every call
  with `strstart` above WINDOW_SIZE - MIN_LOOKAHEAD, and without such a call nothing behind the 64K is read.
- `Store.tallied` is the history of all tokens given to `ct_tally`; nothing computes with it.
- Reads are modelled by a plan of chunk sizes, a 0 standing for a failing read.

## What the code does, where its comments say otherwise

- gzip.c:1255 says that a forced code is 0 or 1. It is 2 exactly when symbol 1 alone occurs (`Huffman.ForcedTwo`, with
  `Huffman.ForcedTwoExample`); code 2 has no extra bits either.
- The disabled assertion at gzip.c:627 does not hold near the end of the input. `Deflation.Search` says exactly which
  calls violate it. `Deflation.Deflate` shows that it can fail only if the input length n satisfies
  n >= 65276 and (n - 65276) mod 32768 <= 258, and `Gzip.FarRun` gives a failing run for each such n with a remainder of
  2 or more. With a remainder of 0 or 1 the last hash is taken over bytes behind the input, so that the memory there
  decides. No result depends on what is read behind the window.
- The 16-bit frequency of the root wraps to 0 exactly when one symbol alone occurs 65535 times (`Huffman.ForcedTotal`,
  `Huffman.RootWraps`, `Huffman.WrappingExample`); every promise about the code holds there too.
- A flash whose length field does not fit an int and whose checksum field is 0 is loaded with success, and empties the
  shadow file (`NvramFlash.SilentLoss`).
- A get from a file of zero bytes reads behind the buffer (`NvramFile.EmptyFileAnswers`).
- `set_status` of the third word on a line without a second one moves it to second place (`StatusWords.SetThenGet`).
- A dependency line with an empty field, such as a trailing comma and space, is fatal (`DependencyText.ClauseCrashes`);
  a condition without operator characters leaves the operator unset.
- A grid value in which a row before the last is short makes the parser copy a negative length (`Grid.Entry.Parse`,
  `Grid.ShortRowExample`).
- `build_bl_tree` would send only 3 code length codes if none of the plain lengths were used; `TreeHeader.SomeLength`
  shows that this cannot happen.
- `nvram_commit_unlock` opens the flash for writing only, so its read-back compares the buffer with itself.
- A grid that starts with the text `*DEL*` is saved and then not found (nvram.c:344-349): `GridStore.SaveAndReload`
  states exactly when a grid comes back.

## Model

| member | source | states |
|---|---|---|
| Gzip.Zip | extra_binaries/src/flash_eraseall/archival/gzip.c:1977-2006 | For every input, every chunking of the reads and every time stamp, a reader of RFC 1952 that shares nothing with the compressor accepts the file and finds nothing behind it: the time stamp, extra flags 2, system 3, and exactly the bytes read; the reader inflates by RFC 1951, then compares the CRC of the text, as a remainder of a division, and its length modulo 2^32; if no read fails, all of the input is read |
| Gzip.MemberReads | extra_binaries/src/flash_eraseall/archival/gzip.c:1977-2006 | The reader of RFC 1952 accepts a header, compressed data that ends in a byte, and a trailer, in this order, with the CRC before the length |
| Gzip.Setup | extra_binaries/src/flash_eraseall/archival/gzip.c:1987-1998 | Everything before the compression loop establishes the loop's starting state |
| Deflation.Deflate | extra_binaries/src/flash_eraseall/archival/gzip.c:1719-1822 | For every input and every chunking of the reads: the tokens handed to `ct_tally`, all of them and in order, expand to exactly the bytes read, with lengths 3..258 and distances 1..MAX_DIST; the emitted bits, whatever stands behind them, inflate to the same bytes and leave fewer than 8 zero bits; the returned length is the exact number of bytes. The disabled assertion of `longest_match` fails only at input lengths that satisfy PastEnd, and surely on a run of literals over the counter text of such a length |
| Deflation.Step | extra_binaries/src/flash_eraseall/archival/gzip.c:1728-1807 | One turn of the lazy matcher up to the refill keeps: all tallied tokens continue the text, the pending match is a true repetition in absolute positions, the chains and the running hash are right, the window shows the input; matching is lazy: the pending match is tallied exactly if the search at the next byte finds nothing longer, else the waiting byte, and the search finds the longest match among the nearest strings of the chain; it also says when the turn calls `longest_match` too far |
| Deflation.Decide | extra_binaries/src/flash_eraseall/archival/gzip.c:1763-1807 | Exactly the pending match is tallied when it has 3 bytes or more and the new one is not longer; otherwise exactly the waiting byte, and the new match is the pending one |
| Deflation.Turn | extra_binaries/src/flash_eraseall/archival/gzip.c:1728-1816 | A whole turn, refill included, keeps all of this and moves on by at least a byte; on the counter text it stays a run of literals |
| Deflation.Search | extra_binaries/src/flash_eraseall/archival/gzip.c:1740-1759 | A result longer than the pending match is a repetition of real input bytes, at most `lookahead` long, within MAX_DIST; no nearer string of the chain, up to 4096 or 1024 of them and less than MAX_DIST away, gives a match longer than it and the pending one within the lookahead, but for 3 bytes farther than TOO_FAR or at the very end of the input. `longest_match` is called with `strstart` above WINDOW_SIZE - MIN_LOOKAHEAD exactly when the guard of the call holds there |
| Deflation.TakeMatch | extra_binaries/src/flash_eraseall/archival/gzip.c:1763-1787 | Exactly one token is tallied, the pending match with its length and its true distance; every string of the match is inserted, and the block is flushed when asked |
| Deflation.Distance | extra_binaries/src/flash_eraseall/archival/gzip.c:1765 | The distance computed from a `match_start` that wrapped around when the window moved is still the true distance |
| Deflation.FoundInText | extra_binaries/src/flash_eraseall/archival/gzip.c:1747-1750 | A match found in the window, also over bytes behind the lookahead, is a repetition in the input once it is cut to the lookahead |
| Deflation.Wait | extra_binaries/src/flash_eraseall/archival/gzip.c:1788-1807 | Exactly the literal of the byte before `strstart` is tallied if that byte waits, and nothing otherwise; the current byte waits next |
| Deflation.LastBlock | extra_binaries/src/flash_eraseall/archival/gzip.c:1818-1821 | The end of the loop codes the last waiting byte and the last block, and the decoder yields all of the input |
| Gzip.FarRun | extra_binaries/src/flash_eraseall/archival/gzip.c:627 | At every input length n of the form 65276 + 32768 k + r with 2 <= r <= 258 there is an input, the counter text, read in one go, on which the disabled assertion fails |
| FarInput.CounterRepeatsNothing | extra_binaries/src/flash_eraseall/archival/gzip.c:1740-1743 | In the counter text no three bytes occur twice within MAX_DIST, so every byte becomes a literal |
| FarInput.CounterCollides | extra_binaries/src/flash_eraseall/archival/gzip.c:1682 | At a position above the limit the counter text has a string with the hash of an earlier one within reach, so the search starts |
| FarInput.PlainTurn | extra_binaries/src/flash_eraseall/archival/gzip.c:1728-1816 | Where a run of literals stands after each turn and refill |
| FarInput.PlainEnd | extra_binaries/src/flash_eraseall/archival/gzip.c:627 | At the end of such a run the limit has been passed |
| Tokenizer.TallyNext | extra_binaries/src/flash_eraseall/archival/gzip.c:1484-1535 | Tallying a token that continues the text keeps: finished blocks decode to the text up to the block start, pending tokens continue it |
| Tokenizer.FlushNext | extra_binaries/src/flash_eraseall/archival/gzip.c:1697-1704 | After a flush the decoder has produced the whole text tallied so far, whichever encoding was used |
| Tokenizer.FlushLast | extra_binaries/src/flash_eraseall/archival/gzip.c:1697-1704 | After the last flush the reference decoder turns the whole stream into the text |
| Expansion.CopyRepeats | extra_binaries/src/flash_eraseall/archival/gzip.c:1763-1765 | Byte-by-byte copying of a repetition, overlapping or not, continues the text |
| Expansion.ExpandContinues | extra_binaries/src/flash_eraseall/archival/gzip.c:1763-1797 | Appending a literal or match of the text itself extends what the tokens expand to by exactly its bytes |
| Expansion.ResumesBlock | extra_binaries/src/flash_eraseall/archival/gzip.c:1591-1673 | A block that decodes in place carries the decoder from one resumption point to the next, whatever follows |
| Expansion.ResumesLast | extra_binaries/src/flash_eraseall/archival/gzip.c:1591-1673 | A final block ends the decoding with exactly the text, and leaves what follows |
| Expansion.EndsLast | extra_binaries/src/flash_eraseall/archival/gzip.c:1591-1673 | The final block ends the decoding after exactly the text and the padding, whatever stands behind the stream |
| Matcher.Window.LmInit | extra_binaries/src/flash_eraseall/archival/gzip.c:1841-1877 | After initialisation the window shows the first bytes of the input, no string is chained, the running hash is that of the first two bytes, and the lookahead suffices unless the input has ended |
| Matcher.Window.FillWindow | extra_binaries/src/flash_eraseall/archival/gzip.c:537-585 | Filling keeps the absolute place of `strstart`, `block_start` and the pending match, keeps the hash chains true of the window, and reads at least a byte or sets `eofile` |
| Matcher.Window.Slide | extra_binaries/src/flash_eraseall/archival/gzip.c:551-575 | Moving the upper half down moves every chained position or drops it, and keeps all chains and the running hash |
| Matcher.Window.Refill | extra_binaries/src/flash_eraseall/archival/gzip.c:1815-1816 | The lookahead is at least MIN_LOOKAHEAD unless the input has ended |
| Matcher.Window.LongestMatch | extra_binaries/src/flash_eraseall/archival/gzip.c:601-673 | The result is the longest match, if longer than `prev_length`, among the nearest 4096 strings with the same hash less than MAX_DIST away (1024 if the pending match has 32 bytes or more), and `match_start` is the nearest string that gives it; every earlier string that agrees in three bytes has that hash. Else `match_start` is unchanged. No byte behind the 64K window is read unless `strstart` is above WINDOW_SIZE - MIN_LOOKAHEAD, which before the end of the input it never is |
| Matcher.Window.Compare | extra_binaries/src/flash_eraseall/archival/gzip.c:648-655 | The unrolled comparison returns exactly how far the two strings agree, up to 258 |
| Matcher.Window.Insert | extra_binaries/src/flash_eraseall/archival/gzip.c:1712-1717 | Inserting a string keeps the chains, rolls the hash, and returns the last earlier string with the same hash, or 0 |
| Matcher.Source.Read | extra_binaries/src/flash_eraseall/archival/gzip.c:426-438 | A read delivers the next bytes of the input, any number up to what was asked for, and the register is that of all bytes delivered so far; 0 or -1 ends the input |
| Matcher.Source.UpdCrc | extra_binaries/src/flash_eraseall/archival/gzip.c:409-418 | The table loop feeds exactly the bits of the bytes read to the bit-serial register |
| HashChains.ThirdByte | extra_binaries/src/flash_eraseall/archival/gzip.c:640-646 | Equal hashes and equal first two bytes force equal third bytes |
| HashChains.ReadyNext | extra_binaries/src/flash_eraseall/archival/gzip.c:1682 | The 13-bit running hash equals the hash of the last three bytes: the oldest byte leaves after three steps |
| HashChains.InsertKeeps | extra_binaries/src/flash_eraseall/archival/gzip.c:1712-1717 | The head of a chain and every link lead to the last earlier string with the same hash, none in between left out, and stay so for the last 32K strings after an insertion |
| HashChains.SlideKeeps | extra_binaries/src/flash_eraseall/archival/gzip.c:560-573 | Subtracting WSIZE from all links, or cutting them, keeps the chains of the moved window, and still leaves no string out |
| HashChains.ChainsFrame | extra_binaries/src/flash_eraseall/archival/gzip.c:576-584 | Reading behind the inserted strings does not disturb the chains |
| HashChains.LinkRank | extra_binaries/src/flash_eraseall/archival/gzip.c:672-673 | Following a link moves on by exactly one string of the same hash |
| BlockFlush.FlushBlock | extra_binaries/src/flash_eraseall/archival/gzip.c:1591-1673 | For every block and whichever encoding is chosen, the decoder reads the emitted bits back as exactly the tallied tokens, or the block's bytes when stored, and stops at the block's last bit; the block is the smallest in bytes of the stored form, the fixed codes and the codes built; the next block starts empty; the byte count returned at the end is exact |
| BlockFlush.Choose | extra_binaries/src/flash_eraseall/archival/gzip.c:1614-1660 | A stored block is chosen exactly when its size test holds, so the test of `buf` against NULL decides nothing; its bytes are all in the window and fit LEN; otherwise the shorter of static and dynamic is chosen |
| BlockFlush.SendStored | extra_binaries/src/flash_eraseall/archival/gzip.c:1645-1649 | The stored form decodes to the bytes; `compressed_len` grows by exactly the bits sent, with the rounded formula |
| BlockFlush.SendStatic | extra_binaries/src/flash_eraseall/archival/gzip.c:1651-1654 | The static form decodes to the tokens and takes exactly 3 + `static_len` bits |
| BlockFlush.SendDynamic | extra_binaries/src/flash_eraseall/archival/gzip.c:1655-1661 | The dynamic form decodes to the tokens and takes exactly 3 + `opt_len` bits |
| BlockFlush.InitBlock | extra_binaries/src/flash_eraseall/archival/gzip.c:995-1012 | All frequencies are those of an empty block |
| BlockBits.StoredDecodes | extra_binaries/src/flash_eraseall/archival/gzip.c:509-526 | Padding, LEN, NLEN and the bytes decode as a stored block (section 3.2.4 of RFC 1951) |
| BlockBits.StaticDecodes | extra_binaries/src/flash_eraseall/archival/gzip.c:1651-1654 | Tokens under the fixed codes decode as a block of type 1 (section 3.2.6 of RFC 1951) |
| BlockBits.DynamicDecodes | extra_binaries/src/flash_eraseall/archival/gzip.c:1655-1661 | Header and tokens decode as a block of type 2 (section 3.2.7 of RFC 1951) |
| BlockBits.StaticTokenBound | extra_binaries/src/flash_eraseall/archival/gzip.c:1637-1644 | No token takes more than 31 bits under the fixed codes |
| BlockBits.StaticBound | extra_binaries/src/flash_eraseall/archival/gzip.c:1637-1644 | A block of n tokens takes at most 31 n + 7 bits under the fixed codes |
| BlockCoder.Coder.CtTally | extra_binaries/src/flash_eraseall/archival/gzip.c:1484-1535 | The token is stored and counted in both alphabets and ends the history of tallied tokens; a flush is requested exactly when a buffer is full, or after each 4096 tokens when matches are few and the estimated size is below half the input |
| BlockCoder.Coder.Prepare | extra_binaries/src/flash_eraseall/archival/gzip.c:1591-1612 | Both trees and the code length tree are usable for the block's tokens, and `opt_len` and `static_len` are the exact lengths of the two codings |
| BlockCoder.BuiltUsable | extra_binaries/src/flash_eraseall/archival/gzip.c:1598-1606 | The trees built from a block's own frequencies give every symbol of the block a code, at exactly the predicted cost |
| BlockCoder.StaticUsable | extra_binaries/src/flash_eraseall/archival/gzip.c:1106-1107 | The fixed trees give every token a code, at exactly the predicted cost |
| BlockCoder.CtInit | extra_binaries/src/flash_eraseall/archival/gzip.c:1886-1968 | The tables, the static trees and the first block are set up |
| TokenBuffer.Store.Push | extra_binaries/src/flash_eraseall/archival/gzip.c:1486-1512 | `l_buf`, `d_buf`, `flag_buf` and the pending flags represent exactly the old tokens and the new one, which also ends the history of all tokens |
| TokenBuffer.PendingAppend | extra_binaries/src/flash_eraseall/archival/gzip.c:1503-1512 | The flag bit of a token lands at its place among the pending flags; the eighth completes a byte |
| TokenBuffer.PackedAtFlush | extra_binaries/src/flash_eraseall/archival/gzip.c:1596 | Saving the incomplete flag byte completes the packed form |
| TokenBuffer.NextFlag | extra_binaries/src/flash_eraseall/archival/gzip.c:1551-1575 | While sending, the low flag bit says whether the next token is a match |
| TokenBuffer.CompressBlock | extra_binaries/src/flash_eraseall/archival/gzip.c:1540-1583 | Exactly the codes of the packed tokens are sent, in order, then the end-of-block code |
| TokenCode.ReadTokensBack | extra_binaries/src/flash_eraseall/archival/gzip.c:1540-1583 | Any token list, coded with any codes of Kraft sum at most 1, is read back as itself |
| TokenCode.TokensCost | extra_binaries/src/flash_eraseall/archival/gzip.c:1099-1107 | Frequencies times code and extra-bit lengths give the exact length of the coded tokens |
| TokenCode.FreqTotal | extra_binaries/src/flash_eraseall/archival/gzip.c:1484-1501 | The literal frequencies total the tokens plus one end-of-block, the distance frequencies at most the tokens |
| TreeHeader.SendAllTrees | extra_binaries/src/flash_eraseall/archival/gzip.c:1455-1477 | The header sent is that of the two length vectors |
| TreeHeader.ReadHeaderBack | extra_binaries/src/flash_eraseall/archival/gzip.c:1455-1477 | The decoder of section 3.2.7 of RFC 1951 recovers both length vectors from the header and stops behind it |
| TreeHeader.BuildBlTree | extra_binaries/src/flash_eraseall/archival/gzip.c:1420-1446 | The header counts always fit their fields, at least 4 code length codes are sent and the last one sent is not 0, and `opt_len` grows by the exact length of the header |
| TreeHeader.SomeLength | extra_binaries/src/flash_eraseall/archival/gzip.c:1438-1441 | Some code length is always sent plainly, so the loop stops at index 3 or later |
| TreeSend.ScanTree | extra_binaries/src/flash_eraseall/archival/gzip.c:1309-1355 | Each symbol of the code length alphabet is counted exactly as often as it will be sent |
| TreeSend.SendTree | extra_binaries/src/flash_eraseall/archival/gzip.c:1362-1413 | Exactly the run-length operations of the vector are sent |
| RunLength.RleRoundTrip | extra_binaries/src/flash_eraseall/archival/gzip.c:1362-1413 | For every vector of lengths up to 15 the operations stand for exactly that vector, whatever was sent before |
| RunLength.OneRun | extra_binaries/src/flash_eraseall/archival/gzip.c:1362-1413 | One run of equal lengths becomes single lengths up to 3 of them (2 for zeros), else one length and one repeat, or one run of zeros of the short or the long kind |
| RunLength.TwoTreesReadBack | extra_binaries/src/flash_eraseall/archival/gzip.c:1472-1476 | Two vectors sent back to back are read back as their concatenation, and reading stops behind them |
| RunLength.ReadOp | extra_binaries/src/flash_eraseall/archival/gzip.c:1380-1399 | The decoder reads each operation as what it stands for |
| TreeBuild.BuildTree | extra_binaries/src/flash_eraseall/archival/gzip.c:1217-1300 | For every frequency vector with total below 65536: complete code, Kraft sum exactly 1, every occurring symbol coded, no length above the limit, no rarer symbol shorter, codes canonical; `opt_len` and `static_len` grow by the exact cost, forced codes and repair included |
| TreeBuild.ForcedCost | extra_binaries/src/flash_eraseall/archival/gzip.c:1247-1256 | The corrections for forced codes cancel what `gen_bitlen` adds for them |
| TreeBuild.GenCodes | extra_binaries/src/flash_eraseall/archival/gzip.c:1159-1192 | Every symbol gets the canonical code of section 3.2.2 of RFC 1951, reversed for the wire, without 16-bit wrap |
| TreeBuild.FirstCodes | extra_binaries/src/flash_eraseall/archival/gzip.c:1169-1171 | The first code of each length is that of section 3.2.2 of RFC 1951 |
| TreeBuild.BiReverse | extra_binaries/src/flash_eraseall/archival/gzip.c:474-484 | Sent low bit first, the result is the code most significant bit first |
| CanonicalCode.CodeFits | extra_binaries/src/flash_eraseall/archival/gzip.c:1159-1192 | Under a Kraft sum of at most 1 every canonical code fits its length |
| CanonicalCode.PrefixFree | extra_binaries/src/flash_eraseall/archival/gzip.c:1159-1192 | No code on the wire is a prefix of another's |
| CanonicalCode.ReadCodeword | extra_binaries/src/flash_eraseall/archival/gzip.c:1159-1192 | A decoder that knows only the lengths reads a code back as its symbol |
| CodeRules.FirstIsZero | extra_binaries/src/flash_eraseall/archival/gzip.c:1159-1192 | Section 3.2.2 of RFC 1951: the first code of the shortest length is all zeros |
| CodeRules.SuccessiveCodes | extra_binaries/src/flash_eraseall/archival/gzip.c:1159-1192 | Codes of one length count up in the order of their symbols |
| CodeRules.NextLength | extra_binaries/src/flash_eraseall/archival/gzip.c:1159-1192 | The first code of a length is the successor of the last code of the length before, filled up with zeros; with the two rules above this fixes every code |
| CodeRules.ShorterFirst | extra_binaries/src/flash_eraseall/archival/gzip.c:1159-1192 | A shorter code comes before every longer one |
| CodeRules.EightCodes | extra_binaries/src/flash_eraseall/archival/gzip.c:1159-1192 | The codes of the example of section 3.2.2 of RFC 1951 |
| CodeRules.FixedCodes | extra_binaries/src/flash_eraseall/archival/gzip.c:1938-1953 | Every fixed code of section 3.2.6 of RFC 1951 in closed form |
| CodeRules.FixedDistances | extra_binaries/src/flash_eraseall/archival/gzip.c:1958-1961 | Fixed distance code n is n in five bits |
| CodeRules.LengthTable | extra_binaries/src/flash_eraseall/archival/gzip.c:1901-1913 | The length codes of section 3.2.5 of RFC 1951 in closed form |
| CodeRules.DistanceTable | extra_binaries/src/flash_eraseall/archival/gzip.c:1916-1931 | The distance codes of section 3.2.5 of RFC 1951 in closed form |
| CodeRules.OrderTable | extra_binaries/src/flash_eraseall/archival/gzip.c:1420-1446 | The order of the code length codes of section 3.2.7 of RFC 1951 in closed form |
| KnownStreams.KnownStored | extra_binaries/src/flash_eraseall/archival/gzip.c:1645-1649 | A stream of ten given bytes, a stored block, decodes to the five bytes it holds |
| KnownStreams.KnownFixed | extra_binaries/src/flash_eraseall/archival/gzip.c:1651-1654 | A stream of four given bytes, a block of fixed codes with a match, decodes to ten equal bytes |
| KnownStreams.KnownDynamic | extra_binaries/src/flash_eraseall/archival/gzip.c:1655-1661 | A stream of fifteen given bytes, a block of dynamic codes that uses all repeat codes and a match, decodes to four equal bytes |
| KnownStreams.KnownMember | extra_binaries/src/flash_eraseall/archival/gzip.c:1977-2006 | The 21 bytes of a whole gzip file are read as the one byte it holds, with its header fields |
| CodeLengths.GenBitlen | extra_binaries/src/flash_eraseall/archival/gzip.c:1063-1148 | Lengths within the limit, Kraft sum exactly 1, positive exactly for the occurring symbols, monotone in frequency; the cost accounting is exact; and if no node of the tree is deeper than the limit, no code of Kraft sum at most 1 for the occurring symbols costs less |
| CodeLengths.ShallowIsOptimal | extra_binaries/src/flash_eraseall/archival/gzip.c:1053-1061 | A tree within the limit has no overflow, and its lengths are optimal |
| OptimalCode.Brothers | extra_binaries/src/flash_eraseall/archival/gzip.c:1053-1061 | Any code can be turned, at no more cost, into one in which the two lightest members are brothers |
| OptimalCode.MergeBrothers | extra_binaries/src/flash_eraseall/archival/gzip.c:1274-1277 | Replacing two brothers by their father gives a code that is cheaper by exactly the father's weight |
| OptimalCode.LowerBound | extra_binaries/src/flash_eraseall/archival/gzip.c:1268-1289 | At every stage of the merging, no code for the queued nodes costs less than the fathers still to come |
| OptimalCode.TreeCost | extra_binaries/src/flash_eraseall/archival/gzip.c:1084-1101 | With the tree's depths as lengths the queued nodes cost exactly the fathers still to come |
| OptimalCode.TreeOptimal | extra_binaries/src/flash_eraseall/archival/gzip.c:1053-1061 | The depths of the merged tree cost no more, extra bits included, than any lengths of Kraft sum at most 1 that code the occurring symbols |
| CodeLengths.FirstPass | extra_binaries/src/flash_eraseall/archival/gzip.c:1078-1108 | Depths clamped to the limit; the number of clamped nodes is exactly twice the Kraft excess in units of the longest code |
| CodeLengths.Reassign | extra_binaries/src/flash_eraseall/archival/gzip.c:1134-1147 | Handing the repaired counts out by frequency keeps counts, order and the exact cost |
| BitLengths.Repair | extra_binaries/src/flash_eraseall/archival/gzip.c:1116-1127 | The repair loop ends, conserves the number of leaves, and leaves Kraft sum exactly 1 |
| BitLengths.RepairStep | extra_binaries/src/flash_eraseall/archival/gzip.c:1116-1127 | One turn removes exactly two from the overflow and keeps the balance |
| BitLengths.ShorterExists | extra_binaries/src/flash_eraseall/archival/gzip.c:1117-1119 | While there is overflow and the leaves fit the limit, some shorter length is in use |
| Huffman.Builder.MakeTree | extra_binaries/src/flash_eraseall/archival/gzip.c:1230-1291 | For every frequency vector with total below 65536, a full binary tree over the occurring or forced symbols: in true sums nodes leave the queue in nondecreasing frequency, every father after its sons; the stored 16-bit frequencies differ from them at most at the root, and leave in order exactly when the total after forcing is below 65536 |
| Huffman.Builder.ForceTwo | extra_binaries/src/flash_eraseall/archival/gzip.c:1247-1256 | At least two codes exist afterwards, exactly the forced vector, and the accounting is unchanged up to their single bits |
| Huffman.ForcedTwo | extra_binaries/src/flash_eraseall/archival/gzip.c:1247-1256 | Code 2 is forced exactly when symbol 1 alone occurs |
| Huffman.ForcedTwoExample | extra_binaries/src/flash_eraseall/archival/gzip.c:1255 | A vector at which the forced code is 2 |
| Huffman.ForcedTotal | extra_binaries/src/flash_eraseall/archival/gzip.c:1247-1256 | The total after forcing is 65536 exactly when one symbol alone occurs 65535 times, and below otherwise |
| Huffman.RootWraps | extra_binaries/src/flash_eraseall/archival/gzip.c:1274-1277 | The stored frequencies leave in order exactly when the total fits 16 bits |
| Huffman.WrappingExample | extra_binaries/src/flash_eraseall/archival/gzip.c:1274-1277 | A vector at which the root's stored frequency wraps to 0 |
| Huffman.Builder.MergeStep | extra_binaries/src/flash_eraseall/archival/gzip.c:1268-1289 | One merge takes the two least nodes out and queues their father, keeping the heap and the order |
| HuffmanTree.FatherLater | extra_binaries/src/flash_eraseall/archival/gzip.c:1084-1088 | Every father precedes its sons in `heap[heap_max..]` |
| HuffmanTree.RarerIsDeeper | extra_binaries/src/flash_eraseall/archival/gzip.c:1217-1300 | In the finished tree a strictly rarer node is not closer to the root, also after clamping |
| HuffmanTree.ActiveMerge | extra_binaries/src/flash_eraseall/archival/gzip.c:1274-1277 | Merging conserves the total frequency, so no sum of frequencies can exceed it |
| Heap.PqDownHeap | extra_binaries/src/flash_eraseall/archival/gzip.c:1028-1050 | The heap order is restored from `k` on, with the same elements |
| Heap.PqRemove | extra_binaries/src/flash_eraseall/archival/gzip.c:1210-1215 | The element removed is least, first by frequency and then by depth, and the rest stays a heap |
| Heap.RootLeast | extra_binaries/src/flash_eraseall/archival/gzip.c:1210-1215 | The root of a heap is least, first by frequency and then by depth |
| CodeTables.InitLengthCodes | extra_binaries/src/flash_eraseall/archival/gzip.c:1901-1913 | The length tables agree with section 3.2.5 of RFC 1951 for every length, 258 taking its own code |
| CodeTables.InitDistCodes | extra_binaries/src/flash_eraseall/archival/gzip.c:1916-1931 | The distance tables agree with section 3.2.5 of RFC 1951 for every distance |
| CodeTables.InitStatic | extra_binaries/src/flash_eraseall/archival/gzip.c:1938-1965 | The static trees are the fixed codes of section 3.2.6 of RFC 1951, canonical and of Kraft sum at most 1 |
| BitWriter.Writer.SendBits | extra_binaries/src/flash_eraseall/archival/gzip.c:446-466 | The bit stream grows by exactly the value, low bit first, also when the 16-bit buffer spills |
| BitWriter.Writer.Put16Bit | extra_binaries/src/flash_eraseall/archival/gzip.c:374-383 | Two bytes, low first, also across a flush of the output buffer |
| BitWriter.Writer.Windup | extra_binaries/src/flash_eraseall/archival/gzip.c:490-502 | Only zero bits up to the next byte boundary are added |
| BitWriter.Writer.CopyBlock | extra_binaries/src/flash_eraseall/archival/gzip.c:509-526 | Alignment, LEN and its complement, then the bytes, and nothing else |
| BitWriter.Spill | extra_binaries/src/flash_eraseall/archival/gzip.c:459-463 | The 16 bits written out and the bits kept are exactly the buffered and the new bits |
| BitWriter.Fit | extra_binaries/src/flash_eraseall/archival/gzip.c:464-465 | Or-ing into the bit buffer appends the new bits |
| Crc.Crc32 | extra_binaries/src/nvram-lib/nvram.c:140-164 | The table-driven checksum of the first `length` bytes is the bit-serial register of section 8 of RFC 1952, complemented before and after; what that is, say the four rows below |
| CrcDivision.ChecksumIsDivision | extra_binaries/src/nvram-lib/nvram.c:140-164 | The checksum of any bytes is the remainder of a long division of bit strings over GF(2): the bits of the bytes, low bit first, followed by 32 zeros, the first 32 flipped, divided by the generator with the exponents 32, 26, 23, 22, 16, 12, 11, 10, 8, 7, 5, 4, 2, 1, 0, and the remainder flipped |
| CrcDivision.FeedIsDivision | extra_binaries/src/nvram-lib/nvram.c:146-161 | The register after any bits, from any start, is the remainder of that division with the start value added to the first 32 bits |
| CrcDivision.PolyIsGenerator | extra_binaries/src/nvram-lib/nvram.c:145 | The constant of the code holds the coefficients of that generator below the 32nd power, reversed |
| CrcDivision.CheckValue | extra_binaries/src/nvram-lib/nvram.c:140-164 | The published check value: the bytes of 123456789 have the checksum 0xCBF43926 |
| Crc.FeedByte | extra_binaries/src/nvram-lib/nvram.c:159-161 | One table step equals eight bit-serial steps |
| Crc.FillTable | extra_binaries/src/flash_eraseall/libbb/crc32.c:19-40 | Every table entry is eight bit-serial steps of its index |
| Crc.FeedWord | extra_binaries/src/nvram-lib/nvram.c:146-156 | Up to 32 message bits can be mixed into the register at once |
| Crc.BurstDetected | extra_binaries/src/nvram-lib/nvram.c:140-164 | Bit strings that differ only inside 32 consecutive bits leave different registers |
| Crc.ChecksumDetects | extra_binaries/src/nvram-lib/nvram.c:140-164 | Byte strings that differ only inside 4 consecutive bytes have different checksums |
| NvramFlash.Nvram.Load | extra_binaries/src/nvram-lib/nvram.c:166-217 | The status and the shadow file after a load, for every flash content and every 32-bit length field; only a matching magic number and checksum change the file |
| NvramFlash.LoadChecks | extra_binaries/src/nvram-lib/nvram.c:186-209 | A load of a length that fits an int succeeds exactly if the magic number is 0x004E4F52 and the stored checksum is the remainder of the division for the data; then the file is the data, otherwise it stays and the status names the first check that failed |
| NvramFlash.SilentLoss | extra_binaries/src/nvram-lib/nvram.c:193-217 | A load reports success without delivering the data exactly when the magic number is right, the length field does not fit an int and the checksum field is 0; the shadow file is then empty |
| NvramFlash.SilentLossExample | extra_binaries/src/nvram-lib/nvram.c:193-217 | Such a flash |
| NvramFlash.Nvram.Commit | extra_binaries/src/nvram-lib/nvram.c:233-281 | The status and the flash after a commit, for every shadow file |
| NvramFlash.CommitWrites | extra_binaries/src/nvram-lib/nvram.c:233-270 | After a successful commit the flash holds the magic number 0x004E4F52, the size, the remainder of the division for the file, and byte for byte the file, in front of the old bytes of the area |
| NvramFlash.LoadAfterCommit | extra_binaries/src/nvram-lib/nvram.c:166-281 | A commit succeeds exactly for a file that is not empty and fits an int; loading after it restores the image, whatever the flash held before |
| NvramFlash.LoadRejects | extra_binaries/src/nvram-lib/nvram.c:193-204 | A committed image altered inside 4 consecutive bytes is rejected and the shadow file stays as it was |
| NvramFile.File.Get | extra_binaries/src/nvram-lib/nvram.c:297-320 | For every image and name the value of the first record with that name; of a file of zero bytes, whatever record of that name stands in memory behind the buffer |
| NvramFile.EmptyFileAnswers | extra_binaries/src/nvram-lib/nvram.c:297-320 | A file of zero bytes can answer any value for any name, so a get finds nothing in an empty file exactly when memory happens to hold nothing of that name |
| NvramFile.File.Set | extra_binaries/src/nvram-lib/nvram.c:408-455 | The image of the records with that name's value replaced, or a record appended; a missing or empty file is created |
| NvramFile.File.Unset | extra_binaries/src/nvram-lib/nvram.c:355-394 | The image without the records of that name; untouched if there is none |
| NvramFile.NvramGet | extra_binaries/src/nvram-lib/nvram.c:334-352 | The own value, else the default, which is copied into the file; a value marked deleted is not found |
| NvramFile.DeletedIs | extra_binaries/src/nvram-lib/nvram.c:344-349 | Deleted are exactly the values that begin with the five bytes *DEL*, these alone included |
| NvramStore.GetAfterSet | extra_binaries/src/nvram-lib/nvram.c:297-455 | Get after set returns the value for that name and the old one for every other |
| NvramStore.GetAfterUnset | extra_binaries/src/nvram-lib/nvram.c:297-394 | Get after unset finds nothing for that name and the old value for every other |
| NvramStore.SetKeepsOthers | extra_binaries/src/nvram-lib/nvram.c:408-455 | Every other record stays as it was and in order |
| NvramStore.SetKeepsUnique | extra_binaries/src/nvram-lib/nvram.c:408-455 | Names stay unique and records well formed |
| NvramStore.UnsetKeepsUnique | extra_binaries/src/nvram-lib/nvram.c:355-394 | Names stay unique and records well formed |
| NvramStore.RunRefines | extra_binaries/src/nvram-lib/nvram.c:297-455 | Over every sequence of operations the records refine a map from names to values |
| NvramStore.FileRunRefines | extra_binaries/src/nvram-lib/nvram.c:297-455 | Over every run of sets and unsets on the bytes of a file: names stay unique, the file is the map with those updates, and its records are those of the run on records |
| NvramStore.ChangeDecodes | extra_binaries/src/nvram-lib/nvram.c:355-455 | One set or unset on the bytes is the same change of the records and of the map |
| NvramStore.EncodeInjective | extra_binaries/src/nvram-lib/nvram.c:306-317 | An image has only one reading as records |
| NvramStore.DecodeEncode | extra_binaries/src/nvram-lib/nvram.c:306-317 | Reading back an image gives its records, whatever follows the empty record |
| NvramStore.OneSetting | extra_binaries/src/nvram-lib/nvram.c:408-455 | In bytes: name, 61, value, and two zeros |
| NvramStore.SetInBytes | extra_binaries/src/nvram-lib/nvram.c:408-455 | A new setting goes to the end of the file in front of the last zero; one that is there changes in its place, and every other line stays |
| NvramStore.FirstIsFound | extra_binaries/src/nvram-lib/nvram.c:306-317 | Of several records of one name the first one is found |
| NvramRuns.Serializable | extra_binaries/src/nvram-lib/nvram.c:219-231 | For any number of processes and any interleaving of their system calls, the files and all answers are those of running the operations one after the other in the order in which their last lock was granted |
| NvramRuns.SettingsAreAMap | extra_binaries/src/nvram-lib/nvram.c:219-467 | For any number of processes and any interleaving: as soon as nobody works on a file, its bytes stand for the map with exactly the sets and unsets of the log in lock order, since any point after the last load; and every finished get has returned what the map held at its own place in that order |
| NvramRuns.CommittedIsRestored | extra_binaries/src/nvram-lib/nvram.c:166-281 | For any number of processes and any interleaving: the first load behind a successful commit, by whatever process, reports success and restores exactly the file that the commit found |
| NvramRuns.LoadPutsBack | extra_binaries/src/nvram-lib/nvram.c:166-281 | The same for any commit and load in the log, with no commit in between |
| NvramRuns.AfterIsFileRun | extra_binaries/src/nvram-lib/nvram.c:219-467 | In the sequential run a file goes through its own changes only |
| NvramRuns.StepKeeps | extra_binaries/src/nvram-lib/nvram.c:219-467 | Every step of every process keeps the lock table exclusive and every running operation on the track of the sequential run |
| NvramRuns.NoDeadlock | extra_binaries/src/nvram-lib/nvram.c:283-295 | In every reachable state with an operation under way, some process can take a step of its operation |
| NvramRuns.StepsShorten | extra_binaries/src/nvram-lib/nvram.c:219-467 | Every step but a new beginning brings its process nearer to idle, so no operation runs forever |
| NvramProtocol.Alone | extra_binaries/src/nvram-lib/nvram.c:166-455 | The single system calls of an operation, undisturbed, have its effect and its answer |
| NvramProtocol.CallsLocal | extra_binaries/src/nvram-lib/nvram.c:219-467 | An operation sees and touches only the files it has locked |
| NvramLock.Rewrite | extra_binaries/src/nvram-lib/nvram_lock.c:17-22 | The lock path is the plain one with slashes replaced from the second character of the path on |
| NvramLock.LockChar | extra_binaries/src/nvram-lib/nvram_lock.c:17-22 | The lock file is /var/lock/, the path with every slash behind its first character turned into an underscore, and .lock |
| NvramLock.SharedLock | extra_binaries/src/nvram-lib/nvram_lock.c:17-22 | Two paths share a lock file exactly when they differ only in slashes and underscores behind the first character |
| NvramLock.OwnLocks | extra_binaries/src/nvram-lib/nvram_lock.c:17-22 | The files of nvram.h, with both values of NVRAM_PATH, have different locks |
| Grid.Entry.Parse | extra_binaries/src/page-server/nvram_cache.c:167-211 | For every value: the rows and the columns are those of its grid, a 1x1 value is text, or unknown if empty; the parser returns exactly when no row before the last is shorter than the longest, and then the cells are those of the grid, a short last row filled up with empty ones |
| Grid.Entry.Sync | extra_binaries/src/page-server/nvram_cache.c:250-294 | The value of an array has as many bytes as its cells that are not NULL and its separators together, and its grid has at each place the stored text, or the empty text where the cell is NULL; other kinds keep their value |
| Grid.LengthCounted | extra_binaries/src/page-server/nvram_cache.c:262-267 | The printed form of any cells has the length that the code counts in advance, one separator for each cell, less one |
| Grid.ShownReads | extra_binaries/src/page-server/nvram_cache.c:250-294 | What was printed is read as the same cells, NULL ones as the empty text |
| Grid.TicksGrid | extra_binaries/src/page-server/nvram_cache.c:168-180 | The counting loop finds the number of rows and the length of the longest, whatever the lengths |
| Grid.GridDetermined | extra_binaries/src/page-server/nvram_cache.c:167-210 | A value has one reading as rows and cells, of any lengths |
| Grid.RowsOfGrid | extra_binaries/src/page-server/nvram_cache.c:167-210 | Every value is the printed form of its grid |
| Grid.GridOfRows | extra_binaries/src/page-server/nvram_cache.c:167-210 | The grid of a printed form is the one that was printed |
| Grid.PrintedBack | extra_binaries/src/page-server/nvram_cache.c:167-294 | Parsing and printing a value gives it back, with the separators that its last row lacks |
| Grid.ShortRowExample | extra_binaries/src/page-server/nvram_cache.c:202-208 | A value with 1 between rows and 2 between cells and a short first row, its grid, and that the length of a cell becomes negative on it |
| Grid.ShownPresent | extra_binaries/src/page-server/nvram_cache.c:250-294 | Printing cells that were parsed shows the same grid |
| GridStore.SaveAndReload | extra_binaries/src/page-server/nvram_cache.c:250-294 | Through sync, set, get and parse, the rows and the columns come back and every cell, NULL ones as empty texts, exactly when the printed form does not start with the deletion mark; otherwise nothing is found |
| GridStore.LostGrid | extra_binaries/src/nvram-lib/nvram.c:344-349 | A grid whose first cell is the deletion mark is lost |
| HashTables.Search | extra_binaries/src/flash_eraseall/archival/dpkg.c:152-160 | On a table of prime size with a slot to stop at, the probe loop ends within p probes at the first such slot of the key's path |
| HashTables.Complete | extra_binaries/src/flash_eraseall/archival/dpkg.c:174-183 | A search does not miss an entry with the key's hash that it would accept |
| HashTables.StoreKeeps | extra_binaries/src/flash_eraseall/archival/dpkg.c:656-659 | Storing at the slot found keeps every entry reachable |
| Probing.ProbesReach | extra_binaries/src/flash_eraseall/archival/dpkg.c:156-159 | For prime p the first p probes visit every slot |
| Probing.ProbesDiffer | extra_binaries/src/flash_eraseall/archival/dpkg.c:156-159 | For prime p the first p probes are pairwise different |
| Probing.PrimeProduct | extra_binaries/src/flash_eraseall/archival/dpkg.c:141-142 | A prime divides no product of two smaller positive numbers |
| Probing.NamePrime | extra_binaries/src/flash_eraseall/archival/dpkg.c:45 | 16381 is prime |
| Probing.PackagePrime | extra_binaries/src/flash_eraseall/archival/dpkg.c:47-55 | 10007 is prime |
| Probing.StatusPrime | extra_binaries/src/flash_eraseall/archival/dpkg.c:73 | 8191 is prime |
| DpkgTables.Tables.SearchName | extra_binaries/src/flash_eraseall/archival/dpkg.c:146-163 | The index returned holds the key; every index given before keeps its meaning |
| DpkgTables.SameIndex | extra_binaries/src/flash_eraseall/archival/dpkg.c:146-163 | Two keys, looked up at any two times, have the same index exactly when they are the same string |
| DpkgTables.Tables.SearchNames | extra_binaries/src/flash_eraseall/archival/dpkg.c:146-163 | Over a run of any number of lookups, with a free slot for every new string: equal indices exactly for equal strings, and strings that were in the table keep their index |
| DpkgTables.Tables.GetStatus | extra_binaries/src/flash_eraseall/archival/dpkg.c:663-683 | The index returned is that of the given word of the status line |
| DpkgTables.Tables.SetStatus | extra_binaries/src/flash_eraseall/archival/dpkg.c:685-716 | The status line becomes the old one with that word replaced, no other status changes, and the tables stay searchable |
| StatusWords.GetWord | extra_binaries/src/flash_eraseall/archival/dpkg.c:671-678 | The scan finds the given word of the line |
| StatusWords.LineWords | extra_binaries/src/flash_eraseall/archival/dpkg.c:714-716 | A printed line reads back as its words exactly when an empty flag is followed by an empty state |
| StatusWords.ThreeWords | extra_binaries/src/flash_eraseall/archival/dpkg.c:663-683 | The three words of a line with spaces between them and a newline behind, whatever follows |
| StatusWords.SetThenGet | extra_binaries/src/flash_eraseall/archival/dpkg.c:663-716 | All three words read back after a set, except exactly when the third word is set on a line that has no second one |
| DpkgTables.Tables.SearchPackage | extra_binaries/src/flash_eraseall/archival/dpkg.c:327-348 | A wanted package is found exactly when there is one, and a free slot otherwise |
| DpkgTables.Tables.AddPackage | extra_binaries/src/flash_eraseall/archival/dpkg.c:656-659 | A slot is overwritten only by a package of the same name and an equal version, and a free one taken only if there is none; all tables stay searchable |
| DpkgTables.Tables.SearchStatus | extra_binaries/src/flash_eraseall/archival/dpkg.c:168-184 | The status of a package name is found exactly when there is one |
| DpkgTables.Tables.AddStatus | extra_binaries/src/flash_eraseall/archival/dpkg.c:766-768 | A slot is overwritten only by a status of the same package name, and a free one taken only if there is none, so no package name gets two statuses |
| Versions.VersionComparePart | extra_binaries/src/flash_eraseall/archival/dpkg.c:187-242 | The sign is that of the chunk lists; what it means for the texts, say `VersionText.PartsByText` and the rows behind it |
| Versions.VersionCompare | extra_binaries/src/flash_eraseall/archival/dpkg.c:248-305 | The sign is that of epoch, upstream part and revision in turn; what it means for the texts, say the rows of `VersionText` |
| Versions.TestVersion | extra_binaries/src/flash_eraseall/archival/dpkg.c:307-325 | The operator applied to that sign |
| Versions.VersionOrder | extra_binaries/src/flash_eraseall/archival/dpkg.c:248-305 | The comparison is reflexive, antisymmetric in sign and transitive on all versions |
| Versions.ChunksTransitive | extra_binaries/src/flash_eraseall/archival/dpkg.c:187-242 | Comparing padded chunk lists is transitive |
| Versions.ChunksEqual | extra_binaries/src/flash_eraseall/archival/dpkg.c:187-242 | Two parts compare equal exactly when their padded chunks are the same |
| Versions.TestConsistent | extra_binaries/src/flash_eraseall/archival/dpkg.c:307-325 | The operators are mutually consistent on all versions |
| VersionText.PartsByText | extra_binaries/src/flash_eraseall/archival/dpkg.c:187-242 | For all texts: the sign of comparing two parts is that of an order on the texts alone, without numbers or chunks: runs of other bytes first, then runs of digits, without leading zeros the longer one greater and among equally long ones the first different digit |
| VersionText.NumberOrderIs | extra_binaries/src/flash_eraseall/archival/dpkg.c:230-237 | That order of digit runs is the order of the numbers they write |
| VersionText.HigherNumber | extra_binaries/src/flash_eraseall/archival/dpkg.c:187-305 | Behind a common start, inside the same part of both versions, the higher number makes the later version, whatever follows |
| VersionText.LongerNumber | extra_binaries/src/flash_eraseall/archival/dpkg.c:230-237 | Without leading zeros the number with more digits makes the later version |
| VersionText.HigherDigit | extra_binaries/src/flash_eraseall/archival/dpkg.c:230-237 | Of two numbers of equal length the first different digit decides |
| VersionText.LeadingZero | extra_binaries/src/flash_eraseall/archival/dpkg.c:230-237 | Leading zeros make no difference |
| VersionText.HigherByte | extra_binaries/src/flash_eraseall/archival/dpkg.c:194-221 | Outside numbers the first different byte decides |
| VersionText.WordAboveEnd | extra_binaries/src/flash_eraseall/archival/dpkg.c:194-221 | A byte that is no digit is above the end of a part and above a number |
| VersionText.PartsOf | extra_binaries/src/flash_eraseall/archival/dpkg.c:259-297 | Epoch, upstream version and revision of a text with a colon and dashes: the last dash divides |
| VersionText.NoEpoch | extra_binaries/src/flash_eraseall/archival/dpkg.c:259-275 | Without a colon in second place the epoch is 0 |
| VersionText.EpochFirst | extra_binaries/src/flash_eraseall/archival/dpkg.c:277-282 | The epoch is compared before everything else |
| VersionText.RevisionLast | extra_binaries/src/flash_eraseall/archival/dpkg.c:299-305 | Versions with the same upstream text are ordered by their revisions |
| VersionText.OperatorsOnNumbers | extra_binaries/src/flash_eraseall/archival/dpkg.c:307-325 | What all five operators say of two versions of which one has the higher number |
| VersionText.NineBeforeTen | extra_binaries/src/flash_eraseall/archival/dpkg.c:187-305 | 1.9 is before 1.10 |
| Dependencies.SearchForProvides | extra_binaries/src/flash_eraseall/archival/dpkg.c:366-379 | The first package behind the given index with an edge of kind provides and this name, or none |
| Dependencies.Check | extra_binaries/src/flash_eraseall/archival/dpkg.c:1089-1122 | An edge passes exactly when a package of the wanted name and version, or a provider of the name, has the status that the kind of edge asks for |
| Dependencies.PackageSatisfies | extra_binaries/src/flash_eraseall/archival/dpkg.c:940-955 | A pre-dependency is satisfied exactly by status word 3 "installed", a dependency by word 1 "install", of the package name's status |
| Dependencies.Find | extra_binaries/src/flash_eraseall/archival/dpkg.c:1088-1089 | The slot found holds a package of the wanted name and version exactly when there is one, also after words were entered in the name table |
| Dependencies.CheckEdges | extra_binaries/src/flash_eraseall/archival/dpkg.c:1073-1151 | With its counter and its skip, the loop over the edges of a package fails exactly when some group of alternatives has none that is met, and never finds the list corrupt |
| Dependencies.CheckDeps | extra_binaries/src/flash_eraseall/archival/dpkg.c:1042-1152 | On the real tables: the check fails exactly when a package that is to be installed has a dependency none of whose alternatives is met; only words are entered, in the name table, and no index changes its meaning |
| DependencyLaws.Passes | extra_binaries/src/flash_eraseall/archival/dpkg.c:940-955 | On the words of the status lines: the check passes if every group of a package with first word install has an alternative with a candidate, by name and version or as a provider, whose first word is install, or, for a pre-dependency, whose third word is installed |
| DependencyLaws.PassesAmongWanted | extra_binaries/src/flash_eraseall/archival/dpkg.c:940-955 | Without pre-dependencies the check passes if the packages to be installed satisfy one another, whether or not any is installed yet |
| DependencyLaws.FailsWithoutInstalled | extra_binaries/src/flash_eraseall/archival/dpkg.c:940-955 | It fails if a package to be installed has a pre-dependency of whose candidates none has the third word installed |
| DependencyLaws.FailsWithoutWanted | extra_binaries/src/flash_eraseall/archival/dpkg.c:940-955 | It fails if a package to be installed has a dependency of whose candidates none has the first word install |
| DependencyLaws.NewerFulfils | extra_binaries/src/flash_eraseall/archival/dpkg.c:327-348 | A package with the higher number has what >> and >= ask for and not what << and <= ask for, and the other way round for a lower one; another name is never what is asked for |
| DependencyLists.AddSplit | extra_binaries/src/flash_eraseall/archival/dpkg.c:400-488 | For every line of text: either the list grows by exactly one group for each dependency, whose edges name the strings of its alternatives, or by edges that the check skips for the other kinds, and stays well formed; or the process ends as the reading of the text says |
| DependencyLists.AddClause | extra_binaries/src/flash_eraseall/archival/dpkg.c:414-483 | One dependency: its alternatives in order, behind a root that counts them exactly when there is a bar |
| DependencyLists.RootIsBar | extra_binaries/src/flash_eraseall/archival/dpkg.c:414-430 | A dependency gets a root exactly when there is a bar in its text |
| DependencyText.LineRead | extra_binaries/src/flash_eraseall/archival/dpkg.c:413-487 | Any list of dependencies printed with spaces, bars, commas and conditions is read back as itself |
| DependencyText.AlternativeRead | extra_binaries/src/flash_eraseall/archival/dpkg.c:431-474 | A printed alternative is read back, with or without spaces around it |
| DependencyText.ConditionMeans | extra_binaries/src/flash_eraseall/archival/dpkg.c:445-474 | What every string of the characters < = > in front of a version means: a single < or > is the strict comparison, and all but seven strings are illegal |
| DependencyText.NamesMean | extra_binaries/src/flash_eraseall/archival/dpkg.c:413-487 | Of a, b | c in bytes: a dependency on a, and one on b or c, in any version |
| DependencyText.ClauseCrashes | extra_binaries/src/flash_eraseall/archival/dpkg.c:415-422 | A field ends in a null pointer exactly when it holds nothing but spaces, and bars behind them |

## Left out

- Versions.VersionCompare: reads no second character of an empty version, where the C code reads past the terminator; digit runs are unbounded.
- DpkgTables.Tables.SearchName: needs a free slot or the key itself, as on a full table the C loop does not end; the other searches and the lookups of `CheckDeps` and `AddSplit` need the same of their tables.
- Dependencies.CheckDeps: the conflicts that `check_deps` tests before the dependencies are not part of the model; edges and statuses must name strings of the table, as the code follows their indices unchecked.
- DependencyLists.AddSplit: the count of alternatives is unbounded, where the C field has 16 bits.
- NvramFlash.Nvram.Load: a write of negative length is taken to fail and leave the file empty, as it was truncated on opening.
- NvramProtocol.Alone: a get of a file of zero bytes is taken to find nothing, where the code reads behind the buffer.
- Gzip.FarRun: covers the remainders 2 to 258; with 0 and 1 the memory behind the input decides.
- Several files compressed by one process: one `zip` run from zeroed globals is modelled.
- The branch of `flush_block` for seekable output: `seekable()` is the constant 0.
- 32-bit wrap of `compressed_len`: it counts the bits of the whole file and is used for nothing but the length returned; `opt_len` and `static_len` of a block stay far below the limit.
- `make_hash` is any function with a start below p and a decrement from 1 to p - 1.
- The splitting of a control file into fields (`read_package_field`, `fill_package_struct`).
- `nvram_get`'s copy from the defaults as one atomic step: it takes the lock twice, so it is modelled without other processes.
- Failing lock calls, which the C code ignores.
- Setting and clearing single cells of a grid.
- File descriptors, allocation, messages, and the remaining applets: plumbing, or only easier properties.
