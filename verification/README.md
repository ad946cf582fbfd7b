# Verification of etherboot's compressors, loaders and transfer protocols

This project models five parts of etherboot in Dafny and proves what they are for.

- **NRV2B** (`src/util/nrv2b.c`): the LZ77 compressor and decompressor. Files `Nrv2b*.dfy`.
- **LZHUF** (`src/util/lzhuf.c`): adaptive Huffman coding over an LZSS dictionary of binary
  search trees. Files `Lzhuf*.dfy`.
- **The ELF loader** (`src/core/elf_loader.c`, `src/core/osloader.c`) with the Internet checksum
  of `src/core/misc.c`. Files `ElfImage.dfy`, `ElfLoader.dfy`, `Checksum.dfy`.
- **SLAM** (`src/core/proto_slam.c`, `contrib/mini-slamd/mini-slamd.c`): multicast download, both
  ends and the network, with the random timeouts. Files `Slam*.dfy`, `Random.dfy`.
- **TFTP** (`contrib/tftp/`): double buffering, netascii and stop-and-wait. Files `Tftp*.dfy`.

`Bytes.dfy` holds bytes, bits and little-endian numbers; `RingBuffer.dfy` the sliding window that
both compressors use.

## How the models are built

State that the C code updates in place is a class with the same fields: the bit buffers, the
match finder with its ring, hash chains and two-byte index, the Huffman arrays, the three link
arrays of the dictionary, the loader's counters, the client's bitmap and image, the server's
place in a status packet, the two transfer buffers. Loops are loops. Each class is tied by its
invariant to a plain mathematical object, and what is promised is proved of that object:

- a token stream and its reader, defined front to back, for the interleaved words and raw bytes
  of NRV2B;
- a tree datatype, with contexts for the way down to a node, for the trees that LZHUF threads
  through arrays;
- the set of file positions already loaded, for the resumable loader;
- runs, bitmaps and blocks for SLAM, and a state machine in which everything ever sent may arrive
  at any time, any number of times, or never;
- the prefix of the file already taken, for TFTP, with the same kind of network.

Formats and constants that encoder and decoder share are fixed by the modules `Nrv2bSample`,
`LzhufSample` and `SlamSample`, which give codes, packets and small files in numbers.

The main results are `Nrv2bCompress.RoundTrip`, `Nrv2bCompress.Compress` with
`Nrv2bChoice.RepeatIsCopied`, `Nrv2bCost.StreamBound`, `LzhufEncode.RoundTrip`,
`ElfLoader.LoadImage`, `Checksum.ChecksumOfJoin`, `SlamSystem.EveryRun`, `SlamExchange.Answered`,
`SlamExchange.Download`, `TftpBuffers.CopyFile`, `TftpSystem.SoundExactly` and `TftpSystem.Transfer`.

Widths: an `unsigned long` of SLAM has four bytes and hosts are little-endian. Where 32-bit
arithmetic could wrap (hashes, bit buffers, the random generator, the server's counters) it is
written out.

## Where the code falls short of what one would expect

- SLAM values of 2^29 and more are encoded in five bytes, which the decoder refuses:
  `SlamCode.DecodeEncoding` holds in both directions.
- The client lets packet number `total_packets` through: `SlamBlocks.AcceptKeepsExactly` says
  exactly when that matters, `SlamClient.TrailerIsTaken` that such a packet is always taken, and
  `SlamClient.TrailerPacketCounts` and `SlamClient.Miscounts` show a case.
- A file whose size is a multiple of the block size is never completed:
  `SlamBlocks.ExpectedIsRight` and `SlamSystem.FullLastBlockNeverCompletes`, against
  `SlamSystem.OneRoundCompletes`; `SlamExchange.Download` holds in both directions.
- A SLAM request that ends right behind its header does not start a session, because the decoder
  wants a byte behind every code: `SlamClient.HeaderParsed`, `SlamClient.Client.OnRequest`.
- TFTP block numbers have 16 bits. An acknowledgement or a block that is 65536 blocks late is taken
  for a new one: `TftpSystem.SoundExactly` says for which files that can happen.
- LZHUF gathers codes in 16 bits; longer ones are cut. `LzhufEncode.Encode` succeeds exactly if no
  token it picks needs one (and the tree need not be rebuilt), and `LzhufCodes.CodesFit` bounds how
  heavy the tree must be before one can occur.

## Model

| member | source | states |
|---|---|---|
| `Nrv2bFormat.LayoutAppend` | src/util/nrv2b.c:858-896 | the interleaved stream of words and raw bytes can be extended: its layout is that of the operations read front to back, wherever a word was reserved |
| `Nrv2bFormat.LayoutSize` | src/util/nrv2b.c:858-909 | the size of a stream is its raw bytes plus whole words for its bits |
| `Nrv2bFormat.ReadBit` | src/util/nrv2b.c:1321-1333 | a reader that stands at an operation sequence beginning with a bit reads that bit and stands at the rest, loading a new word exactly where the writer reserved it |
| `Nrv2bFormat.ReadRaw` | src/util/nrv2b.c:1405 | the same for a raw byte |
| `Nrv2bFormat.WordReadsBack` | src/util/nrv2b.c:833-856 | the bytes of a word, little-endian, give its bits back, first bit on top |
| `Nrv2bTokens.PrefixReadsBack` | src/util/nrv2b.c:918-936 | the prefix code for any value reads back as that value and leaves exactly what follows |
| `Nrv2bTokens.OffsetReadsBack` | src/util/nrv2b.c:939-966 | offset code, including the short form for the offset used last, reads back |
| `Nrv2bTokens.LengthReadsBack` | src/util/nrv2b.c:967-977 | length code with the correction for far offsets reads back |
| `Nrv2bTokens.TokenReadsBack` | src/util/nrv2b.c:939-994 | one legal token, literal or match, decodes to itself whatever follows it |
| `Nrv2bTokens.EofReadsBack` | src/util/nrv2b.c:1210-1215 | the end mark is recognised and is no token |
| `Nrv2bTokens.TokensReadBack` | src/util/nrv2b.c:1400-1448 | decoding a token sequence produces the expansion of the tokens |
| `Nrv2bTokens.StreamReadsBack` | src/util/nrv2b.c:1400-1448 | for every sequence of legal tokens and all four word widths, decoding the laid-out stream yields the expansion of the tokens, ends at the end mark, and has consumed exactly all bytes |
| `Nrv2bCost.TokenBound` | src/util/nrv2b.c:126-138 | a legal token within the window costs at most nine bits for each byte it covers |
| `Nrv2bCost.TokensBound` | src/util/nrv2b.c:126-138 | so does every sequence of tokens |
| `Nrv2bCost.CopyWeight` | src/util/nrv2b.c:939-980 | the bits code_match emits are given by a closed form of length, offset and last offset |
| `Nrv2bTokens.ItemsReadBack` | src/util/nrv2b.c:1400-1448 | after k tokens of a stream the decoder has read exactly those tokens and taken exactly their bits: eight for each byte behind it, less those still in hand |
| `Nrv2bCost.InPlaceBound` | src/util/nrv2b.c:126-138 | after k tokens of any stream the decoder has taken less than nine eighths of the text produced and one word, so it can decode over its own input |
| `Nrv2bCost.StreamBound` | src/util/nrv2b.c:1279 | a complete stream has at most n + n/8 + 256 bytes |
| `Nrv2bCost.LenOfCodedMatch` | src/util/nrv2b.c:1001-1037 | the estimate of a match is at most six bits above what it costs, and never below |
| `Nrv2bSample.TwoBytesPay` | src/util/nrv2b.c:138 | up to offset 0xd00, and no further, a copy of two bytes costs no more than the two literals |
| `Nrv2bSample.CopyLength` | src/util/nrv2b.c:1437 | a coded length m copies m + 1 bytes up to 3328 back and m + 2 from further back |
| `Nrv2bSample.FieldsInBits` | src/util/nrv2b.c:939-977 | offset and length fields bit by bit |
| `Nrv2bSample.SampleLayout` | src/util/nrv2b.c:833-994 | a stream of two literals, two copies and the end mark byte by byte, in words of 16 bits |
| `Nrv2bSample.SampleDecodes` | src/util/nrv2b.c:1324-1448 | those thirteen bytes decode to ABABABBBB |
| `Nrv2bSample.SampleFile` | src/util/nrv2b.c:1359-1459 | with the size in front, lowest byte first, they are a file of that text |
| `Nrv2bEncoder.WrittenLength` | src/util/nrv2b.c:858-889 | with a word open, the output so far has exactly the length of the layout of the operations put |
| `Nrv2bEncoder.Encoder.PutBit` | src/util/nrv2b.c:858-889 | appends one bit: a word is reserved on its first bit, filled in when complete, and stays a valid image of the operations |
| `Nrv2bEncoder.Encoder.PutByte` | src/util/nrv2b.c:891-896 | appends one raw byte after the open word |
| `Nrv2bEncoder.Encoder.FlushBits` | src/util/nrv2b.c:898-909 | afterwards the output is the layout of all operations, with filler bits only at the end |
| `Nrv2bEncoder.Encoder.CodePrefix` | src/util/nrv2b.c:918-936 | emits exactly the prefix code of its argument |
| `Nrv2bEncoder.Encoder.CodeMatch` | src/util/nrv2b.c:939-980 | emits exactly the operations of a match and remembers its offset |
| `Nrv2bEncoder.Encoder.CodeRun` | src/util/nrv2b.c:983-994 | emits exactly the operations of the literals of a stretch of text |
| `Nrv2bDecoder.SentinelStep` | src/util/nrv2b.c:1321-1326 | shifting a word with a sentinel bit below its bits takes the top bit and moves the sentinel on; the word is empty exactly when only the sentinel is left |
| `Nrv2bDecoder.BitReader.GetBit8` | src/util/nrv2b.c:1321-1323 | the 8-bit sentinel reader returns the next bit of the stream |
| `Nrv2bDecoder.BitReader.GetBit16` | src/util/nrv2b.c:1324-1326 | the 16-bit sentinel reader returns the next bit of the stream |
| `Nrv2bDecoder.BitReader.GetBitCounted` | src/util/nrv2b.c:1327-1333 | the 32- and 64-bit readers with a counter return the next bit of the stream |
| `Nrv2bDecoder.BitReader.GetOffset` | src/util/nrv2b.c:1407-1424 | reads an offset as the reference reader does, or finds the end or an overrun |
| `Nrv2bDecoder.BitReader.GetLength` | src/util/nrv2b.c:1425-1437 | reads a length as the reference reader does |
| `Nrv2bDecoder.CopyMatch` | src/util/nrv2b.c:1440-1447 | the in-place copy loop produces the overlapping copy byte by byte |
| `Nrv2bDecoder.Decode` | src/util/nrv2b.c:1400-1448 | on every input the loop computes what the reference decoder computes: the same text, the same number of bytes consumed, or the same failure |
| `Nrv2bWindow.FactorSpreads` | src/util/nrv2b.c:214-215 | multiples of 0x9f5f by less than 256 stay clear of multiples of 2^19 |
| `Nrv2bWindow.Hash3ThirdByte` | src/util/nrv2b.c:214-215 | once two bytes agree, equal hashes mean that the third byte agrees |
| `Nrv2bWindow.ChainIsLive` | src/util/nrv2b.c:452-543 | the llen3[key] newest links of a chain are exactly the live positions with that hash, newest first |
| `Nrv2bWindow.ChainInsert` | src/util/nrv2b.c:529-535 | adding a position keeps all chains exact |
| `Nrv2bWindow.ChainRemove` | src/util/nrv2b.c:499-501 | forgetting the oldest position keeps all chains exact although no link is touched |
| `Nrv2bWindow.IndexInsert` | src/util/nrv2b.c:537-539 | the two-byte index leads to the newest position of its key |
| `Nrv2bWindow.IndexRemove` | src/util/nrv2b.c:503-506 | removing the oldest position clears an entry only if it still leads there |
| `RingBuffer.RingRead` | src/util/nrv2b.c:464-466 | reading straight on past the end of the ring reads the text, thanks to the mirrored tail |
| `RingBuffer.RingWrite` | src/util/nrv2b.c:464-466 | writing a byte and its mirror keeps the rest of the window |
| `RingBuffer.CopyReproduces` | src/util/nrv2b.c:1440-1447 | copying from a true match, even one that overlaps itself, reproduces the text |
| `Nrv2bSearch.MatchFinder.constructor` | src/util/nrv2b.c:375-435 | the window starts valid with the first bytes loaded and nothing registered |
| `Nrv2bSearch.MatchFinder.FetchByte` | src/util/nrv2b.c:457-467 | the ring holds the text up to the new lookahead; at the end of the text the lookahead shrinks |
| `Nrv2bSearch.MatchFinder.GetByte` | src/util/nrv2b.c:453-474 | the window moves on by one position and every invariant of ring, chains and index holds again |
| `Nrv2bSearch.MatchFinder.RemoveNode` | src/util/nrv2b.c:480-510 | once the window is full, the position about to be overwritten is forgotten, and it is the oldest |
| `Nrv2bSearch.MatchFinder.Accept` | src/util/nrv2b.c:519-543 | registers positions without searching; all invariants hold afterwards |
| `Nrv2bSearch.MatchFinder.MatchLength` | src/util/nrv2b.c:573-592 | a candidate that passed the hash and two bytes truly matches in all bytes counted, the unchecked third one included |
| `Nrv2bSearch.MatchFinder.Examine` | src/util/nrv2b.c:567-592 | a chain node that fails the byte tests does not match longer; one that passes is measured exactly |
| `Nrv2bSearch.EarlyExit` | src/util/nrv2b.c:599-611 | stopping at a match longer than any found at its own place misses nothing: an older position that matched longer would have matched that place too |
| `Nrv2bSearch.MatchFinder.Search` | src/util/nrv2b.c:550-615 | the chain walk with its three early exits returns the longest match of the last 4096 positions, up to the longest that is coded |
| `Nrv2bSearch.MatchFinder.Search2` | src/util/nrv2b.c:617-644 | reports the nearest pair of equal bytes in the window, or that there is none |
| `Nrv2bSearch.MatchFinder.FindBest` | src/util/nrv2b.c:651-706 | finds what Found says (a true match as long as it can be, the longest of the last 4096 positions; of two bytes, the nearest; of one, no pair in the window) and registers the position |
| `Nrv2bSearch.MatchFinder.FindMatch` | src/util/nrv2b.c:743-781 | skips, searches and moves on; returns what was found, the lookahead and the position |
| `Nrv2bCompress.TryLazy` | src/util/nrv2b.c:1142-1190 | a match one or two bytes further on is taken exactly if by the estimates it outweighs the one at hand; one passed over in between was itself outweighed; if none is taken, none that had to be looked at outweighs |
| `Nrv2bCompress.Pays` | src/util/nrv2b.c:1176-1189 | the inequality of estimates decides, and is right up to six bits |
| `Nrv2bCompress.EmitRun` | src/util/nrv2b.c:1195 | the tokens written cover the text up to the end of the run |
| `Nrv2bCompress.EmitMatch` | src/util/nrv2b.c:1199 | the tokens written cover the text up to the end of the match |
| `Nrv2bCompress.EmitEof` | src/util/nrv2b.c:1210-1215 | the buffer holds the complete stream of the tokens |
| `Nrv2bCompress.Round` | src/util/nrv2b.c:1110-1205 | every round keeps the tokens diligent: copies are what was found where they stand, with nothing better behind; literals stand where nothing was worth copying or what was has been outweighed by the match at hand |
| `Nrv2bCompress.Compress` | src/util/nrv2b.c:1039-1233 | legal tokens whose expansion is the text, all of them diligent, laid out within the buffer |
| `Nrv2bChoice.RepeatIsCopied` | src/util/nrv2b.c:1128-1201 | two bytes that occurred within the last 3328 positions, or three within the last 4096, are written as literals only in a run that leads up to a copy, and the run is at most 5/4 of the copy and two bytes |
| `Nrv2bChoice.PlainIsNew` | src/util/nrv2b.c:1128-1137 | a literal with nothing to copy begins no pair of the last 3328 positions and no triple of the last 4096 |
| `Nrv2bChoice.FoundIsLongest` | src/util/nrv2b.c:560-625 | in numbers: the longest match of the last 4096 positions up to 2048 bytes, and any pair of the last 65536 is noticed |
| `Nrv2bChoice.RunAndCopy` | src/util/nrv2b.c:1186-1201 | a run of literals and the match it was put off for keep the tokens diligent |
| `Nrv2bCompress.EncodeFile` | src/util/nrv2b.c:1236-1315 | the file written decompresses to the text and is no longer than the decoder reads |
| `Nrv2bCompress.DecodeFile` | src/util/nrv2b.c:1359-1459 | for every file, archive or not: the text, or a failure if it is cut short, would overrun a buffer, does not end with the input, or is empty |
| `Nrv2bCompress.RoundTrip` | src/util/nrv2b.c:1236-1460 | for every text below 2^32 bytes and every word width, decompressing what was compressed gives the text back |
| `LzhufTree.InitialSibling` | src/util/lzhuf.c:409-427 | StartHuff's tree has the sibling property: sorted frequencies, inner nodes the sum of a pair of sons, parents and sons mutually inverse, every code a leaf |
| `LzhufTree.NotAnAncestor` | src/util/lzhuf.c:470-502 | the node exchanged with is never an ancestor of the node itself |
| `LzhufTree.StepKeeps` | src/util/lzhuf.c:474-500 | one exchange of the climb keeps the sibling property except for the increment that still has to rise, and leads to a higher node |
| `LzhufTree.ClimbKeeps` | src/util/lzhuf.c:470-502 | the whole climb restores the sibling property |
| `LzhufTree.UpdateKeeps` | src/util/lzhuf.c:470-502 | update keeps the sibling property, counts exactly the given code once more, and adds one to the root |
| `LzhufSample.InitialCodes` | src/util/lzhuf.c:409-427 | the codes of a fresh tree in numbers: nine bits 396 + c for the first 116 characters, eight bits c - 116 for the others |
| `LzhufHuffman.Huffman.constructor` | src/util/lzhuf.c:409-427 | the loops of StartHuff build exactly the initial tree |
| `LzhufHuffman.Huffman.Step` | src/util/lzhuf.c:474-500 | the array updates perform exactly the exchange, for inner nodes and leaves |
| `LzhufHuffman.Huffman.Update` | src/util/lzhuf.c:470-502 | the loop on the arrays performs the whole climb and terminates |
| `LzhufCodes.CodeReadsBack` | src/util/lzhuf.c:510-534 | descending along the code of a character arrives at that character, whatever follows |
| `LzhufCodes.CodesFit` | src/util/lzhuf.c:510-534 | as long as the root weighs less than 4181, no code is longer than 16 bits |
| `LzhufCodes.TablesAgree` | src/util/lzhuf.c:235-328 | every byte that begins with the code of an upper position value is decoded to it by the 256-entry tables |
| `LzhufBits.BitSink.Putcode` | src/util/lzhuf.c:380-403 | at any alignment the bits sent are those sent before followed by the code |
| `LzhufBits.BitSink.EncodeEnd` | src/util/lzhuf.c:548-558 | the bytes written are the bits sent, filled up with zeros to a byte |
| `LzhufBits.BitSource.GetBit` | src/util/lzhuf.c:345-358 | returns the next bit; past the end, zeros |
| `LzhufBits.BitSource.GetByte` | src/util/lzhuf.c:360-374 | returns the next eight bits |
| `LzhufCoder.GatherCode` | src/util/lzhuf.c:514-527 | climbing from the leaf gathers the code of the character, left-aligned in 16 bits |
| `LzhufCoder.EncodeChar` | src/util/lzhuf.c:510-534 | sends the code of the character under the current tree, and counts it |
| `LzhufCoder.EncodePosition` | src/util/lzhuf.c:536-546 | sends the position code |
| `LzhufCoder.DecodeChar` | src/util/lzhuf.c:562-578 | descends as the bits turn, and counts the character found |
| `LzhufCoder.DecodePosition` | src/util/lzhuf.c:580-595 | reads a position through the tables |
| `LzhufCoder.PositionReadsBack` | src/util/lzhuf.c:536-595 | every position code reads back as the position and leaves what follows |
| `LzhufForest.TakePlaceSpells` | src/util/lzhuf.c:174-183 | relinking a node into the place of another makes the arrays spell the tree with that node replaced |
| `LzhufForest.BypassSpells` | src/util/lzhuf.c:191-214 | relinking an only child makes the arrays spell the tree without the node |
| `LzhufDictionary.PathStep` | src/util/lzhuf.c:158-172 | comparing one more node keeps the nearest of the longest matches met on the way down |
| `LzhufOrder.Between` | src/util/lzhuf.c:158-172 | of three strings in order, the middle one shares with each end all that the ends share |
| `LzhufOrder.InsertOrdered` | src/util/lzhuf.c:129-184 | insertion keeps the order, registers the position and drops only one with the same string |
| `LzhufOrder.RemoveOrdered` | src/util/lzhuf.c:186-217 | removal keeps the order and takes out one position alone |
| `LzhufOrder.OrderFrame` | src/util/lzhuf.c:644-647 | text that no registered string contains may change |
| `LzhufDictionary.Dictionary.constructor` | src/util/lzhuf.c:119-127 | 256 empty trees |
| `LzhufDictionary.Dictionary.InsertNode` | src/util/lzhuf.c:129-184 | keeps lson, rson and dad consistent and the trees ordered; registers the position; match_length is the longest match among the registered strings with that first byte if above the threshold, at match_position, the nearest such among the nodes compared |
| `LzhufDictionary.Dictionary.DeleteNode` | src/util/lzhuf.c:186-217 | in all four cases the arrays then hold the trees without the position; an unregistered position changes nothing |
| `LzhufDictionary.SameMove` | src/util/lzhuf.c:197-214 | taking the largest node out and then moving it up is what the interleaved assignments do, up to links nobody reads |
| `LzhufDictionary.Deleted` | src/util/lzhuf.c:197-214 | deleting a node with two children leaves a consistent, ordered forest |
| `LzhufWindow.TextWritten` | src/util/lzhuf.c:644-647 | the byte that enters the window, and its mirror, change no registered string |
| `LzhufWindow.MatchIsText` | src/util/lzhuf.c:161-172 | a reported match lies 1..N-F back and its text agrees with the text to be coded as far as the lookahead goes |
| `LzhufWindow.NoneBetter` | src/util/lzhuf.c:161-172 | no position of the input within N-F back matches in more bytes than reported, above the threshold |
| `LzhufWindow.Prime` | src/util/lzhuf.c:620-630 | blanks and first bytes are in place, and the first match is usable |
| `LzhufWindow.Feed` | src/util/lzhuf.c:642-651 | after one byte in, window, trees and registered positions are right for the next position and its match is usable and longest |
| `LzhufWindow.Drain` | src/util/lzhuf.c:658-663 | the same at the end of the input, without a new byte |
| `LzhufStream.RecoverToken` | src/util/lzhuf.c:694-714 | the decoder reads one token back, with the tree going through the same state as the encoder's |
| `LzhufStream.RecoverAll` | src/util/lzhuf.c:693-721 | for every codable token sequence the decoder returns the text the tokens spell, whatever follows the stream |
| `LzhufStream.Output.Copy` | src/util/lzhuf.c:703-713 | copying out of the ring, byte by byte, is copying from the text decoded so far |
| `LzhufStream.Decode` | src/util/lzhuf.c:678-723 | the program decodes a file to what its stream means |
| `LzhufStream.TokensDecode` | src/util/lzhuf.c:548-558 | size, coded tokens and padding zeros together mean the text |
| `LzhufSample.PlaceCodes` | src/util/lzhuf.c:235-256 | the codes for the upper six bits of a place ascend without a gap, with 1, 3, 8, 12, 24 and 16 codes of three to eight bits |
| `LzhufSample.OneByteFile` | src/util/lzhuf.c:678-723 | the archive of any one byte, byte by byte, decodes to it |
| `LzhufSample.ThreeBlanksFile` | src/util/lzhuf.c:678-723 | an archive of one match from the farthest blank, byte by byte, decodes to three blanks |
| `LzhufEncode.Pick` | src/util/lzhuf.c:632-641 | the token picked spells the next bytes, and is the longest match that the window has if that is three bytes or more, else the character |
| `LzhufEncode.Advance` | src/util/lzhuf.c:642-663 | the two loops move window and input on by the length of the token |
| `LzhufEncode.Encode` | src/util/lzhuf.c:601-665 | picks the longest match or the character throughout, says ok exactly if every token picked can be coded, and then the file means the input; else the tokens before and the one refused (code longer than 16 bits, or root at 32768) spell the beginning of the input; with fewer than 3867 tokens, so with fewer than 3867 bytes, it is always ok |
| `LzhufEncode.RoundTrip` | src/util/lzhuf.c:601-723 | decoding what was encoded gives the input back whenever all tokens picked can be coded, with the first one refused named otherwise |
| `ElfImage.SkipAhead` | src/core/elf_loader.c:296-322 | between the position reached and the next segment in file order there is nothing to load |
| `ElfImage.CopyAhead` | src/core/elf_loader.c:275-284 | copying a chunk loads exactly the bytes of that stretch of the file and touches no other segment |
| `ElfImage.LoadedAtLast` | src/core/elf_loader.c:263-331 | when everything is loaded, each segment is its file bytes followed by zeros and all other memory is untouched |
| `ElfLoader.AcceptableByAddress` | src/core/osloader.c:148-180 | the comparisons of bounds, address by address: none in use, all in one stretch of RAM |
| `ElfLoader.PrepSegment` | src/core/osloader.c:136-218 | accepts a segment exactly if no byte of it is in the memory of etherboot or of its heap and one stretch of RAM has them all, and zeroes its bss |
| `ElfLoader.SkipTest` | src/core/osloader.c:348-349 | the comparison of sectors and bytes decides exactly whether the pending skip covers the block |
| `ElfLoader.TakeOff` | src/core/osloader.c:350-355 | borrowing sectors subtracts exactly the length of the block and leaves fewer than 512 odd bytes |
| `ElfLoader.Loader.Consume` | src/core/elf_loader.c:265-289 | skips or copies; a finished segment leaves the loader at its end, an unfinished one at the end of the data |
| `ElfLoader.Loader.FindNext` | src/core/elf_loader.c:296-308 | finds the segment with the least file offset from the position on, or none |
| `ElfLoader.Loader.Seek` | src/core/elf_loader.c:296-322 | turns to the next segment; if there is none, everything has been loaded |
| `ElfLoader.Loader.Download` | src/core/elf_loader.c:257-331 | loc stays the file offset of the data passed in; the image is started only with everything loaded, and always at the end of the file |
| `ElfLoader.Loader.LoadBlock` | src/core/osloader.c:348-362 | the data passed on always begins at loc; a pending skip never exceeds the last block |
| `ElfLoader.PrepareAll` | src/core/elf_loader.c:230-248 | all segments are checked and their bss zeroed; stops at the first refused, with only accepted segments written to |
| `ElfLoader.LoadImage` | src/core/osloader.c:296-364 | for every split of an image into blocks, each loadable segment ends as its file bytes followed by zeros, no other byte of memory changes, and whether or not it succeeds nothing of etherboot or its heap does |
| `ElfLoader.ImageChecksum` | src/core/elf_loader.c:341-375 | the fold over header, program headers and segments is the checksum of their concatenation |
| `Checksum.IpChecksum` | src/core/misc.c:17-41 | the loop computes the one's complement of the canonical one's complement sum |
| `Checksum.ChecksumOfFew` | src/core/misc.c:17-41 | the checksum of one byte x is 0xFFFF - x, of two 0xFFFF - (x + 256 y) |
| `Checksum.ChecksumOfJoin` | src/core/misc.c:44-61 | add_ipchksums of two checksums is the checksum of the concatenation, exactly, odd lengths and zero data included |
| `Checksum.ChecksumOfZeros` | src/core/misc.c:17-41 | the result is 0xFFFF exactly for data that is all zero |
| `SlamCode.DecodeEncoding` | src/core/proto_slam.c:156-231 | slam_decode undoes slam_encode and advances past exactly the code, if and only if the value is below 2^29 and a byte follows |
| `SlamSample.EncodingInNumbers` | src/core/proto_slam.c:156-186 | the code of every 32-bit value, byte by byte |
| `SlamCode.PrefixFree` | src/core/proto_slam.c:156-182 | no code is the beginning of another |
| `SlamCode.HeaderDetermines` | src/core/proto_slam.c:476 | equal header bytes mean equal transaction, size and block size |
| `SlamCode.SlamEncode` | src/core/proto_slam.c:156-186 | writes exactly the code, or nothing if it does not fit; never at or behind end |
| `SlamCode.SlamDecode` | src/core/proto_slam.c:206-231 | returns the value and the place behind the code, or an error |
| `SlamCode.SkipEncoding` | src/core/proto_slam.c:188-203 | skipping steps over exactly the code of any 32-bit value, also one slam_decode refuses, if and only if a byte follows |
| `SlamNack.ScanReadsBack` | src/core/proto_slam.c:381-420 | the runs of a bitmap stand for that bitmap |
| `SlamNack.ScanShape` | src/core/proto_slam.c:381-420 | runs add up to the number of packets, and only the first may be empty |
| `SlamNack.MissingExact` | src/core/proto_slam.c:381-420 | the list of missing packets holds exactly the numbers with a clear bit, each once, ascending |
| `SlamNack.NackAsksForMissing` | contrib/mini-slamd/mini-slamd.c:366-379 | taking the runs of a client's report two by two sends exactly its missing packets, in ascending order |
| `SlamNack.SendsPrefix` | contrib/mini-slamd/mini-slamd.c:498-515 | a report cut short sends a prefix of that list |
| `SlamBlocks.ExpectedIsRight` | src/core/proto_slam.c:334-339 | the length the client expects is right for every block if and only if it is not the last or the size is not a multiple of the block size |
| `SlamBlocks.AcceptKeepsExactly` | src/core/proto_slam.c:329-361 | of the packet numbers let through, taking one keeps bits, count and image in agreement if and only if it is below total_packets (or a duplicate) |
| `SlamBlocks.TrailerKeeps` | src/core/proto_slam.c:401-404 | the inverted trailer bit is never counted |
| `SlamBlocks.CompleteIsFile` | src/core/proto_slam.c:488-491 | once the count reaches total_packets the image is the file |
| `SlamBitmap.SetBitView` | src/core/proto_slam.c:352-354 | setting a bit in its byte sets that bit of the bitmap alone |
| `SlamSample.SamplePacket` | contrib/mini-slamd/mini-slamd.c:467-481 | a data packet byte by byte; blocks have 1500 - 49 bytes |
| `SlamSample.SampleReport` | src/core/proto_slam.c:381-424 | a status packet byte by byte |
| `SlamSample.SessionFits` | src/core/proto_slam.c:300-306 | a session begins exactly if header, longest packet number, block and 28 bytes fit in 1500, and then every packet of the file does |
| `SlamClient.HeaderParsed` | src/core/proto_slam.c:257-285 | a header of the server is parsed to its fields if and only if at least one more byte is in the frame |
| `SlamClient.CarriedIsTaken` | src/core/proto_slam.c:321-350 | a data packet of the server is taken with its number and block, except that a full last block is ignored |
| `SlamClient.TrailerIsTaken` | src/core/proto_slam.c:321-350 | whatever the file, a packet numbered total_packets that carries a full block is taken |
| `SlamClient.TrailerPacketCounts` | src/core/proto_slam.c:330-357 | a frame with packet 1 of a file of one byte in blocks of two: it is taken, the count reaches total_packets, and the image is not the file |
| `SlamClient.Miscounts` | src/core/proto_slam.c:257-363 | a client that gets that frame counts the transfer as complete with only the bit behind the last packet set and the file's byte never written |
| `SlamClient.Client.Reinit` | src/core/proto_slam.c:257-319 | a new session begins with an empty bitmap, exactly if the header parses, the block fits a frame and there is memory |
| `SlamClient.Client.RecvData` | src/core/proto_slam.c:321-363 | rejects, ignores or takes a packet; a packet taken sets its bit, copies its data and counts once |
| `SlamClient.Client.OnData` | src/core/proto_slam.c:472-491 | packets of the server keep header, bitmap, count and image in agreement with the file, across changes of session; the transfer finishes only with the complete file |
| `SlamClient.Client.Synchronize` | src/core/proto_slam.c:472-484 | a data packet or request of another session, or the first one, begins a new session exactly if a byte follows the header, the block fits a frame and there is memory; within the session nothing changes |
| `SlamClient.Client.OnRequest` | src/core/proto_slam.c:472-500 | a request keeps or begins the session and is answered with the report of what is missing, in a new session with the report of everything; it stops the client exactly if no session can begin |
| `SlamClient.Client.BuildNack` | src/core/proto_slam.c:381-424 | the status packet is the codes of the runs of the bitmap as far as they fit, and a null; only the trailer bit changes |
| `SlamServer.Server.OnNack` | contrib/mini-slamd/mini-slamd.c:366-379 | a status packet is taken if it begins with two codes; then exactly the packets it asks for are to be sent |
| `SlamServer.Server.Transmit` | contrib/mini-slamd/mini-slamd.c:447-518 | whatever the status packet, in 32-bit arithmetic: a number behind the file is tried for ever, any other packet is sent and the next one found, with a run of zero counting down from 2^32; for those that clients write it sends the first packet still to be sent and pings exactly when none is left |
| `SlamServer.Server.Ping` | contrib/mini-slamd/mini-slamd.c:287-314 | the request is the header alone, sent if a client is known; then the server waits |
| `SlamServer.Server.Answer` | contrib/mini-slamd/mini-slamd.c:316-518 | over the whole answer, with any arrivals in between, exactly the packets asked for are sent, each once, in order, followed by PINGING |
| `SlamExchange.ReportIsAnswerable` | contrib/mini-slamd/mini-slamd.c:498-515 | for every bitmap and wherever its report is cut, the server asks for a prefix of the missing packets, all of them if it is not cut |
| `SlamExchange.Answered` | contrib/mini-slamd/mini-slamd.c:316-518 | for every bitmap, the server answers its report with the data packets of exactly the missing packets, in order and each once (the first of them if the report was cut), and goes on to ping unless nothing was missing |
| `SlamExchange.Round` | src/core/proto_slam.c:381-424 | the same with the report that the client builds from its bitmap; nothing but the trailer bit changes at the client |
| `SlamExchange.Deliver` | src/core/proto_slam.c:453-500 | the server's packets delivered one after the other leave the client where delivering those numbers leads; when it stops it has the file |
| `SlamExchange.Exchange` | src/core/proto_slam.c:453-500 | a report that is not cut and its answer complete the file if the last block is short; if it is full nothing does |
| `SlamExchange.Download` | src/core/proto_slam.c:432-513 | from nothing, without loss: asked, answered, pinged, reported and answered again, the client finishes with the file if and only if the size is no multiple of the block size |
| `SlamSystem.ReportBelow` | contrib/mini-slamd/mini-slamd.c:366-379 | whatever part of a report arrives, only packets the client misses are asked for |
| `SlamSystem.NextKeeps` | src/core/proto_slam.c:453-500 | every step of client, server and network, requests and pings included, keeps the invariant |
| `SlamSystem.EnteredKeeps` | src/core/proto_slam.c:472-484 | a session can begin at any time, with a data packet or with a request, and the invariant is kept |
| `SlamSystem.EveryRun` | src/core/proto_slam.c:453-500 | in every run over loss, repetition and reordering, a bit is set only for a packet sent, the block is the server's, the count is the number of bits, and on completion the image is the file |
| `SlamSystem.OneRoundCompletes` | contrib/mini-slamd/mini-slamd.c:447-518 | if everything asked for arrives, in any order and with anything in between, the client has the file, provided the last block is short |
| `SlamSystem.FullLastBlockNeverCompletes` | src/core/proto_slam.c:334-344 | if the size is a multiple of the block size and the last packet has not been counted, no packets ever complete the transfer |
| `SlamSystem.NeverFromFresh` | src/core/proto_slam.c:334-344 | so a download of such a file never ends, whatever arrives |
| `Random.Generator.Next` | src/core/misc.c:68-80 | from any seed in 1..2147483562: 40014 times the seed modulo 2147483563, never zero |
| `Random.Schrage` | src/core/misc.c:77-78 | the computation stays within 32 bits |
| `Random.NeverZero` | src/core/misc.c:77-78 | 40014 times a seed is never a multiple of the modulus |
| `Random.Generator.SleepInterval` | src/core/proto_slam.c:234-254 | the interval lies between its minimum and minimum + (range << min(exp,5)), and is the share of the next random number that falls to it, in numbers for 18 ticks a second |
| `TftpNetascii.ExpandReadsBack` | contrib/tftp/tftpsubs.c:136-224 | contracting the expansion of a text gives the text |
| `TftpNetascii.ExpandOne` | contrib/tftp/tftpsubs.c:138-152 | byte 10 goes out as 13 10, byte 13 as 13 0, any other as itself |
| `TftpNetascii.ExpandIsNetascii` | contrib/tftp/tftpsubs.c:138-152 | on the wire every 13 is followed by 10 or 0 and every 10 preceded by 13 |
| `TftpNetascii.PutAllContracts` | contrib/tftp/tftpsubs.c:209-222 | whatever comes in, the writer, which keeps one byte back, writes 10 for 13 10, 13 for 13 0 and everything else as it is |
| `TftpNetascii.PutAllJoin` | contrib/tftp/tftpsubs.c:209-224 | where the bytes are cut into buffers makes no difference to what is written |
| `TftpBuffers.FileReader.ReadIt` | contrib/tftp/tftpsubs.c:84-100 | hands out the next chunk of the file as it is on the wire; nothing is lost or repeated |
| `TftpBuffers.FileReader.ReadAhead` | contrib/tftp/tftpsubs.c:106-156 | at any time and any number of times, reading ahead changes nothing that is handed out |
| `TftpBuffers.FileReader.FillRaw` | contrib/tftp/tftpsubs.c:123-134 | short reads are repeated until the buffer is full or the file at its end |
| `TftpBuffers.FileReader.FillText` | contrib/tftp/tftpsubs.c:136-155 | expands character by character; half a pair is left for the next buffer |
| `TftpBuffers.FileWriter.WriteIt` | contrib/tftp/tftpsubs.c:162-174 | takes over a chunk; at most one other is waiting, in order |
| `TftpBuffers.FileWriter.WriteBehind` | contrib/tftp/tftpsubs.c:182-226 | afterwards the file holds everything taken over, contracted |
| `TftpBuffers.CopyFile` | contrib/tftp/tftpsubs.c:67-226 | for every file, segsize of at least 1 and any number of extra calls in between, the file comes out as it went in, netascii or not |
| `TftpProtocol.FullFromLength` | contrib/tftp/tftpd.c:549-590 | how many blocks of a file are full, and how long the next one is |
| `TftpProtocol.Sender.constructor` | contrib/tftp/tftpd.c:545-556 | the first block is under way |
| `TftpProtocol.Sender.OnAck` | contrib/tftp/tftpd.c:557-590 | an acknowledgement with the 16-bit number of the block under way moves on to the next block, or finishes behind a short one; with the number before, repeats; any other is ignored |
| `TftpProtocol.Receiver.OnData` | contrib/tftp/tftp.c:266-357 | the block with the 16-bit number expected is written and acknowledged, that with the number before acknowledged again, any other ignored; a short block finishes with everything written |
| `TftpSystem.AckMeans` | contrib/tftp/tftpd.c:577-590 | in a job that fits, an acknowledgement with the right number, however old, is that of the block under way, or only the empty last block is missing |
| `TftpSystem.DataMeans` | contrib/tftp/tftp.c:310-340 | in a job that fits, a packet with the number expected, however old, is the block expected |
| `TftpSystem.ArrivesKeeps` | contrib/tftp/tftp.c:310-340 | taking a block keeps the invariant |
| `TftpSystem.AcknowledgedKeeps` | contrib/tftp/tftpd.c:577-590 | taking an acknowledgement keeps the invariant |
| `TftpSystem.EveryRun` | contrib/tftp/tftp.c:266-357 | at every step of every run of a job that fits, the receiver has exactly the first k blocks, the two ends are at most one block apart, and neither stops before the receiver has everything |
| `TftpSystem.SoundExactly` | contrib/tftp/tftpd.c:498-590 | that holds of all reachable states if and only if the file has at most 65535 full blocks and nothing more, with options agreed on, or fewer than 65536 full blocks without |
| `TftpSystem.FileIsComplete` | contrib/tftp/tftp.c:266-365 | when the receiver stops on a short block, or the sender stops, the receiver has written the whole file |
| `TftpSystem.PlayedReachable` | contrib/tftp/tftpd.c:545-590 | any schedule of timeouts and arrivals is a run |
| `TftpSystem.WithoutLoss` | contrib/tftp/tftp.c:266-357 | without loss every transfer ends with the whole file at the receiver, also one whose block numbers wrap |
| `TftpSystem.NeverStuck` | contrib/tftp/tftpd.c:557-590 | after any losses and repetitions that have stopped neither end, the transfer can still be finished, by the sender's timeouts alone while numbers do not wrap |
| `TftpSystem.AckAgain` | contrib/tftp/tftp.c:332-340 | a block the receiver has already is acknowledged again, unless it expects number 0 |
| `TftpSystem.Happens` | contrib/tftp/tftp.c:266-357 | whatever event happens, sender and receiver do what the machine does |
| `TftpSystem.Transfer` | contrib/tftp/tftp.c:266-365 | sender, receiver, buffers and netascii together, under any schedule: both programs stop exactly when the machine does, and in a job that fits the file written is the file read |

## Left out

- LzhufEncode.Encode: the reconstruction of the tree at MAX_FREQ shifts by `(j - k) * 2` bytes, half
  of what it should with four-byte elements, and is not modelled; encoder and decoder are modelled
  up to that point and say when they reach it. Which of several equally long matches is picked is
  not stated.
- Nrv2bCompress.Compress: which of several equally long matches of three bytes or more is coded is
  not stated, nor that longer ones from more than 4096 positions back are found.
- LzhufHuffman.Huffman.Update: requires a root below MAX_FREQ, since what happens there is that
  reconstruction.
- LzhufCoder.EncodeChar: requires a root below MAX_FREQ, and a code of at most 16 bits, since longer
  ones are cut; `LzhufEncode.Encode` tests both before each token.
- LzhufCoder.DecodeChar: requires a root below MAX_FREQ, which `LzhufStream.Decode` tests.
- LzhufStream.Decode: a match that reaches back before the blanks reads unwritten memory; the model
  reports it instead.
- Nrv2bCompress.DecodeFile: the wording of the error messages is not modelled.
- The preset dictionary, best_off and statistics of nrv2b.c, which are switched off, and the
  recursion in code_match for matches longer than max_match, which never occur.
- Byte order of big-endian hosts.
- Parsing of ELF header bytes, notes, relocation of ET_DYN images by find_segment, the FreeBSD and
  Multiboot hooks and the jump into the image; segments come as records.
- ElfLoader.LoadImage: assumes segments that overlap neither in the file nor in memory and are
  in the file completely, and addresses that do not wrap around.
- elf64: the same machine with wider fields.
- SlamServer.Server.Answer: covers the status packets that clients write. A run of zero missing
  packets makes the server count down from 2^32, and a number behind the file keeps it from ever
  finishing, as `SlamServer.Server.Transmit` says.
- SlamExchange.Download: assumes that the request is padded, as short Ethernet frames are; without a
  byte behind the header `SlamClient.Client.OnRequest` says that the client stops.
- The list of clients in the SLAM server, sockets, ARP and IGMP: easy members or plumbing.
- SlamClient.Client.Reinit: a header that announces blocks of size zero is excluded, since the
  division traps there.
- SlamClient.Client.BuildNack: a session for a file of zero bytes is excluded, since the bit before
  the first is read there.
- Random.Generator.Next: the first seed, taken from the clock and the hardware address, is assumed
  to be in range.
- TFTP requests, options, error packets and timeouts as such: a timeout is the step that repeats.
- The retry limits of both protocols, and liveness under loss beyond `SlamSystem.OneRoundCompletes`.
- Drivers, heap, relocation, PXE, the other transfer protocols.
