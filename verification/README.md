# BusyBox algorithms: a verified model

A Dafny model of the parts of BusyBox that do the hardest work, with proofs of what they are for.

| part | source | main result |
|---|---|---|
| gzip | `archival/gzip.c` | Reading back what `zip` wrote, by RFC 1951 and RFC 1952, gives the bytes that were read from the input, for every input and every way reads split it (`Gzip.Zip`). |
| Huffman codes | `archival/gzip.c` | `build_tree` gives a complete prefix code within the length cap, optimal whenever the Huffman tree is not deeper than the cap, and both cost estimates are exact to the bit (`TreeBuild.BuildTree`, `FlushBlocks.BuildAllTrees`). |
| factor | `coreutils/factor.c`, `libbb/isqrt.c` | Every 64-bit number from 1 on is printed as its prime factors in non-decreasing order, and there is only one such line (`Factors.Factorizer.FactorizeNum`, `Primes.FactorizationUnique`). |
| dpkg versions | `archival/dpkg.c` | `version_compare` is the total preorder of section 5.6.12 of the Debian Policy Manual, with digit runs of any length compared as numbers (`Versions.VersionCompare` and the lemmas beside it). |
| dpkg tables | `archival/dpkg.c` | Double hashing sees every slot of its prime-sized tables; no stored name, package or status is ever lost; indices are equal exactly for equal names (`DpkgTables`). |
| dpkg dependencies | `archival/dpkg.c` | Over the tables themselves, the pass of `check_deps` succeeds exactly if every group of every package to be installed has an alternative that a package of that name, version and status, or a provider, meets (`DpkgDeps.CheckDependencies`). `add_split_dependencies` builds such groups; it crashes exactly if a line has no field, or a field without alternatives before any illegal operator, as `libc6, ` has (`DpkgSplits.AddSplitDependencies`). |
| expr | `coreutils/expr.c` | Arguments evaluate to a value, with none left over, if and only if they are an expression tree with that value, written with at least the parentheses that precedence demands; a tree that fails gives its error (`Exprs.EvaluatesTrees`, `ExprEvals.ExprMain`). |
| lzop | `archival/lzop.c` | Files are read back whatever the options, checksum flags and codec, and `lzo_adler32` is Adler-32 without ever leaving 32 bits (`LzopHeaders.DoLzoCompress`, `Adlers.LzoAdler32`). |
| expand | `coreutils/expand.c` | `unexpand` keeps the layout that `expand` shows if and only if it drops no trailing tab, and with `-a` no line with the same layout is shorter (`Expands`). |

Every file is one module. Code that the source writes as loops over arrays and globals is modelled as methods and
classes with loop invariants, each proved against a specification function or predicate; the properties of those
specifications are the lemmas. `Inflate` is an independent decoder written from RFC 1951, and `Gzip.Gunzip` one from
RFC 1952: nothing in them is taken from the encoder.

## How the gzip files build on each other

`Bits` numbers and bit sequences; `Inflate` the decoder; `Canonical` codes from lengths; `BitSink` the bit output;
`Huffman` optimality and the code space; `TreeHeap`, `TreeMerge`, `TreeStart` the heap and the merging of nodes;
`TreeLengths`, `GenBitlen`, `LengthRepair`, `Reassign`, `TreeFacts`, `BuildTree` the lengths and their repair;
`TreeResult`, `TreeBuild` the whole of `build_tree`; `RunLengths`, `SendTree`, `DynHeader`, `BlockTrees` the tree
header; `CodeTables`, `Tokens`, `TokenBuffer`, `BlockBuffer`, `CompressBlock` the tokens of a block; `StoredBlock`,
`FlushBlock`, `BlockWriter` whole blocks; `HashChain`, `Window`, `Deflate` the search for matches; `Gzip` the file.

## How the code is modelled

- Machine integers are unbounded numbers with the truncations written out where the source depends on them: `bi_buf`
  is cut to its width, hash keys are masked, `fw` in `factorize` wraps at 32 bits, Adler sums are shown to stay below
  2^32, `atoi` in version epochs wraps.
- Sums of frequencies are reduced modulo 2^16 as in the source, and proved to stay below it: a block has at most 32767
  tokens and an end marker.
- `WSIZE` is 32768. `HASH_BITS` is any of 13 to 15, the sizes of the buffers are parameters, `BUF_SIZE` is 16 or 32
  and both store paths of `put_16bit` and `put_32bit` are there.
- The window is followed by MAX_MATCH bytes of any content, since `longest_match` may look past the valid bytes.
- Reads of the input return any number of bytes up to the size asked for, or fail; a failed read ends the input.
- Taken as parameters: one step of CRC-32, the LZO block codec (with an inverse, and never empty output for non-empty
  input), the regular expression matcher of expr, and for the tables of dpkg any hashing that starts inside the table
  and has a non-zero step within it, as `make_hash` does (`DpkgTables.MakeHashOk`).
- `make_hash` takes characters as unsigned: those above 127 would shift negative numbers, which is undefined in C.
- A comment in `build_tree` says that a forced symbol is 0 or 1. It may also be 2 (`TreeStart.SpareSymbol`), which
  has no extra bits either.
- An edge whose version has no operator characters has an uninitialised operator in `add_split_dependencies`; the
  model gives it an operator of its own, `Unknown`.
- Where `add_split_dependencies` compares a missing token as a string, the model has an outcome of its own: `NullToken`
  of a parsed line, `Crashed` of the call, `Fell` of the package.
- A control entry of dpkg is the list of its fields, by their place in `field_names`. A package without a name keeps
  index 0, whatever name stands there; if none does, the model has the outcome `Fell`.
- Interned names never go away, so members that intern ask for room: as many free slots as there are new names.
- Signed overflow in expr, undefined in C, is an error of the model.
- The length byte of a name in an lzop header is a signed character, so lengths above 127 are read as no name.

## Model

| member | source | states |
|---|---|---|
| BitSinks.BitSink.constructor | archival/gzip.c:1917-1922 | bi_init: nothing is sent yet and no bits are pending |
| BitSinks.BitSink.FlushOutbuf | archival/gzip.c:425-432 | emptying the buffer leaves the bytes output so far as they are |
| BitSinks.BitSink.Put8 | archival/gzip.c:436-441 | exactly one byte is added and the buffer never stays full |
| BitSinks.BitSink.Put16 | archival/gzip.c:444-481 | two bytes are added, least significant first, on the fast and on the slow path |
| BitSinks.BitSink.Put32 | archival/gzip.c:483-499 | four bytes are added, least significant first, on the fast and on the slow path |
| BitSinks.BitSink.FlushOutbufIf32BitOptimized | archival/gzip.c:500-505 | realigning the buffer changes no output |
| BitSinks.BitSink.SendBits | archival/gzip.c:541-574 | send_bits refines appending `length` bits to an ideal bit sequence, made of flushed bytes, buffer and pending bits |
| BitSinks.BitSink.BiWindup | archival/gzip.c:596-609 | the pending bits are padded with zero bits to a byte and all written |
| BitSinks.MergedFull | archival/gzip.c:541-574 | when bi_buf fills up, its truncated word and the rest of the value are together all the bits |
| Canonical.BiReverse | archival/gzip.c:581-591 | sending the result least significant bit first sends the code most significant bit first |
| Canonical.FirstCodes | archival/gzip.c:1257-1267 | from the length statistics, the first code of every length as in section 3.2.2 of RFC 1951 |
| Canonical.GenCodes | archival/gzip.c:1254-1288 | every symbol gets the canonical code word of its length, reversed; lengths stay |
| Canonical.CodeFits | archival/gzip.c:1254-1288 | with a Kraft sum of at most 1 every code fits its length |
| Canonical.PrefixFree | archival/gzip.c:1254-1288 | with a Kraft sum of at most 1 no code word begins another |
| Canonical.FindsSymbol | archival/gzip.c:1254-1288 | a decoder reads a sent code word as its own symbol, whatever follows |
| TreeHeap.PqDownHeap | archival/gzip.c:1121-1149 | heap order is restored from position k on, over the same set of nodes, and nothing after the heap is touched |
| TreeHeap.PqRemove | archival/gzip.c:1299-1310 | a node of least frequency leaves the heap, the rest stays in heap order |
| Huffman.GreedyOptimal | archival/gzip.c:1360-1385 | always merging two rarest nodes: no lengths of any prefix code cost less than the weight of the created nodes |
| Huffman.MergeBound | archival/gzip.c:1360-1385 | a lower bound for the nodes after a merge of two rarest ones gives one for the nodes before |
| Huffman.CappedKraft | archival/gzip.c:1171-1203 | lengths cut off at the cap exceed the code space by one unit for every father at the cap |
| Huffman.DepthCost | archival/gzip.c:1171-1203 | without cut-offs the lengths cost exactly the weight of all created nodes |
| TreeMerge.TreeBuilder.TakeRarest | archival/gzip.c:1364-1368 | the two nodes taken are the rarest of the set, and both are listed |
| TreeMerge.TreeBuilder.PutFather | archival/gzip.c:1370-1382 | the father gets the sum of the frequencies and replaces its sons in the heap |
| TreeMerge.TreeBuilder.Combine | archival/gzip.c:1360-1385 | all merges are greedy, heap and node list in one array never collide, leaves keep their frequencies |
| TreeStart.CollectUsed | archival/gzip.c:1321-1335 | the heap holds exactly the used symbols, max_code is the largest, unused symbols get length 0 |
| TreeStart.SpareSymbol | archival/gzip.c:1337-1352 | the symbol forced is new, at most 2, and max_code stays the largest |
| TreeStart.ForceTwo | archival/gzip.c:1337-1353 | at least two symbols are in the heap and both estimates are lowered by what the forced ones will add |
| TreeStart.Heapify | archival/gzip.c:1355-1359 | the symbols are in heap order |
| GenBitlen.PlaceNode | archival/gzip.c:1182-1202 | one node gets its father's length plus one, cut at the cap, and is counted and priced if it is a leaf |
| GenBitlen.FirstPass | archival/gzip.c:1169-1203 | statistics, both costs and the number of cut-offs are exactly those of the lengths given |
| LengthRepair.ShorterExists | archival/gzip.c:1212-1214 | while the code is oversubscribed, some code is shorter than the cap, so the inner search ends |
| LengthRepair.RepairStep | archival/gzip.c:1215-1221 | one round frees exactly one unit of code space and keeps the number of leaves |
| LengthRepair.RepairOverflow | archival/gzip.c:1210-1222 | the repair ends with a Kraft sum of exactly 1, the same leaves, and no length above the cap |
| Reassign.HandOut | archival/gzip.c:1224-1242 | the scan stays inside the node list, the lengths fit the repaired statistics, and opt_len follows |
| TreeFacts.PassKraft | archival/gzip.c:1171-1203 | after the first pass the overflow is even and twice the excess of code space |
| Huffman.DepthsAgree | archival/gzip.c:1171-1203 | the merges alone decide every depth and how many fathers reach the cap |
| BuildTrees.CutIsDeep | archival/gzip.c:1182-1187 | lengths are cut off only if the tree is deeper than the cap |
| BuildTrees.GenBitLengths | archival/gzip.c:1161-1244 | for every frequency table: lengths from 1 to the cap, Kraft sum exactly 1, statistics and costs exact; a tree not deeper than the cap keeps its depths |
| TreeBuild.GrowTree | archival/gzip.c:1312-1385 | collecting, forcing and merging give a complete list of greedy merges over the used and forced symbols |
| TreeBuild.BuildTree | archival/gzip.c:1312-1394 | a complete prefix code for all used symbols with canonical codes, exact changes of opt_len and static_len, and optimality whenever the tree that was grown is not deeper than the cap, even if a length equals it |
| RunLengths.EmitMeans | archival/gzip.c:1424-1434 | a finished run is sent within the range of every field and means the lengths it stands for |
| RunLengths.RunsMean | archival/gzip.c:1402-1448 | decoding the run-length items gives the lengths back, every repeat count in range |
| RunLengths.ScanTree | archival/gzip.c:1402-1448 | bl_tree's frequencies grow by exactly the symbols that send_tree will send; the guard is set |
| SendTrees.SendCode | archival/gzip.c:1074-1081 | the code word of a symbol is sent |
| SendTrees.SendTree | archival/gzip.c:1454-1505 | exactly the items of the tree's lengths are sent, each with its extra bits |
| SendTrees.ItemsDecode | archival/gzip.c:1454-1505 | a decoder of section 3.2.7 of RFC 1951 reads sent items as what they mean |
| CodeTables.InitLengthCodes | archival/gzip.c:1983-1996 | every match length is covered by its code, base and extra bits as RFC 1951 has them, 258 by code 285 |
| CodeTables.InitDistCodes | archival/gzip.c:1998-2014 | every distance is covered by its code, base and extra bits through both halves of dist_code |
| CodeTables.StaticLitTree | archival/gzip.c:2016-2048 | the static literal tree carries the fixed code of section 3.2.6 of RFC 1951 |
| CodeTables.StaticDistTree | archival/gzip.c:2050-2054 | the static distance tree carries the fixed 5-bit code |
| CodeTables.FixedLitStats | archival/gzip.c:2020-2043 | the statistics set by hand count the fixed lengths, which fill the code space |
| Tokens.TokensDecode | archival/gzip.c:1630-1673 | coded tokens and the end-of-block code decode to the bytes the tokens expand to, for any two codes |
| TokenBuffers.TokensCost | archival/gzip.c:1196-1202 | frequencies times code lengths and extra bits are exactly the bits of the block's tokens |
| BlockBuffers.BlockBuffer.Count | archival/gzip.c:1576-1588 | the frequencies become those of the tokens with one more |
| BlockBuffers.BlockBuffer.Save | archival/gzip.c:1575-1590 | literal or length and distance are stored as the next entries |
| BlockBuffers.BlockBuffer.SaveFlag | archival/gzip.c:1591-1600 | the flag bits of all full groups of eight tokens are in flag_buf |
| BlockBuffers.BlockBuffer.OutLength | archival/gzip.c:1603-1610 | the estimate is the sum of distance frequencies times their prices |
| BlockBuffers.BlockBuffer.Tally | archival/gzip.c:1573-1625 | the buffers hold the old tokens and the new one; true exactly if they are full or flushing is thought profitable |
| CompressBlocks.SendToken | archival/gzip.c:1645-1668 | a literal or a length and distance pair is sent as its code words and extra bits |
| CompressBlocks.CompressBlock | archival/gzip.c:1630-1673 | all buffered tokens and then the end of the block are sent |
| DynHeaders.ClRoundTrip | archival/gzip.c:1545-1567 | the code length lengths are read back through bl_order, those not sent as 0 |
| DynHeaders.HeaderDecodes | archival/gzip.c:1545-1567 | a decoder goes on after the header with exactly the encoder's two codes |
| DynHeaders.ItemsCost | archival/gzip.c:1511-1538 | the items of the header take exactly the bits that bl_tree's frequencies and lengths foretell |
| BlockTrees.FourSent | archival/gzip.c:1526-1533 | at least four bit length codes are always sent |
| BlockTrees.BuildBlTree | archival/gzip.c:1511-1538 | opt_len grows by exactly the size of the header; the header's code covers all items |
| StoredBlocks.CopyBlock | archival/gzip.c:615-631 | padding, length, its complement and the bytes are sent |
| StoredBlocks.StoredDecodes | archival/gzip.c:615-631 | a decoder reads a stored block as its bytes |
| FlushBlocks.BuildAllTrees | archival/gzip.c:1687-1700 | both estimates are exact: opt_len is header plus data with the dynamic trees, static_len is the data with the static ones |
| FlushBlocks.SendAllTrees | archival/gzip.c:1545-1567 | exactly the header bits that HeaderDecodes reads are sent |
| FlushBlocks.StaticEncodes | archival/gzip.c:1743-1745 | a block with static trees decodes to what its tokens stand for |
| FlushBlocks.DynamicEncodes | archival/gzip.c:1747-1751 | a block with dynamic trees decodes to what its tokens stand for |
| FlushBlocks.StoredEncodes | archival/gzip.c:1738-1741 | a stored block decodes to its bytes |
| BlockWriters.InitBlock | archival/gzip.c:1095-1112 | no tokens, all frequencies 0 but the end marker's, both estimates 0 |
| BlockWriters.SendStored | archival/gzip.c:1738-1741 | the bits sent are one stored block and no longer than counted |
| BlockWriters.SendStatic | archival/gzip.c:1743-1745 | the bits sent are one block, 3 more than static_len |
| BlockWriters.SendDynamic | archival/gzip.c:1747-1751 | the bits sent are one block, 3 more than opt_len |
| BlockWriters.EncodeBlock | archival/gzip.c:1687-1753 | whichever encoding is picked, the block decodes to the same bytes and exceeds none of the three sizes, dynamic, static or stored, by more than header and alignment |
| BlockWriters.FlushBlock | archival/gzip.c:1680-1766 | the tokens become one decodable block, a new block is started, and the last one ends on a byte boundary |
| BlockWriters.InitTables | archival/gzip.c:1969-2054 | ct_init's tables and static trees are those of RFC 1951 |
| BlockWriters.Encoder.constructor | archival/gzip.c:1969-2058 | ct_init leaves an empty block with room for tokens |
| BlockWriters.Encoder.Tally | archival/gzip.c:1573-1625 | a token is recorded, nothing is sent, and there is room as long as no flush is asked for |
| BlockWriters.Encoder.Flush | archival/gzip.c:1680-1766 | the recorded tokens are sent as one block that decodes to what they stand for |
| HashChains.HashForgets | archival/gzip.c:1774 | three updates make a hash key of the last three bytes alone |
| HashChains.ThirdByte | archival/gzip.c:752-758 | equal hash keys and two equal bytes make the third byte equal |
| HashChains.InsertKeeps | archival/gzip.c:1803-1808 | inserting a string keeps every chain complete, most recent string first, of one hash key; the old head is the last string of that key |
| HashChains.ChainsSlid | archival/gzip.c:661-677 | sliding the window and both tables moves every chain with its strings, none missing |
| Windows.Compare | archival/gzip.c:758-769 | the length found is the number of equal bytes, up to MAX_MATCH |
| Windows.Window.InsertString | archival/gzip.c:1803-1808 | the last earlier string of the same key is returned and all chains are kept |
| Windows.Window.TryMatch | archival/gzip.c:740-770 | a candidate passed over by the quick checks is no longer than the best match |
| Windows.LongestOfAll | archival/gzip.c:710-784 | none longer among the strings looked at means none longer at any position they cover, on the chain or not |
| Windows.Window.LongestMatch | archival/gzip.c:710-784 | a real match better than prev_length or none; the search stops only at the chain limit, the chain's end or a nice match; no string of the window within reach, or from the last one looked at on, is longer |
| Windows.Window.FileRead | archival/gzip.c:522-535 | the bytes read are in the window, and counted in crc and isize |
| Windows.Window.Slide | archival/gzip.c:655-679 | the upper half moves down, all positions and chains with it |
| Windows.Window.ReadMore | archival/gzip.c:680-688 | bytes are added after the valid ones and touch no inserted string; nothing read means the end of the input |
| Windows.Window.FillWindow | archival/gzip.c:641-689 | the window holds the input from its base on, and at least one more byte unless the input ended |
| Windows.Window.FillWindowIfNeeded | archival/gzip.c:691-695 | enough lookahead or the end of the input |
| Windows.Window.LmInit | archival/gzip.c:1927-1961 | the hash table is empty, the first bytes are read and hashed |
| Deflating.CopyRepeats | archival/gzip.c:710-784 | copying byte by byte from `dist` back continues data that repeats at that distance, overlapping or not |
| Deflating.MatchExpands | archival/gzip.c:1856 | recording a match extends the expansion of the tokens by its bytes of the input |
| Deflating.Deflater.FlushHere | archival/gzip.c:1788-1795 | the block's bytes, if still in the window, are the input since block_start |
| Deflating.Deflater.Search | archival/gzip.c:1838-1849 | a match is cut to the lookahead and stays a match of the input; distant short ones are dropped |
| Deflating.Deflater.InsertMatch | archival/gzip.c:1858-1874 | all strings of the match are inserted and strstart moves to its end |
| Deflating.Deflater.Consider | archival/gzip.c:1820-1850 | the previous match is kept aside and a better one at strstart is a match of the input |
| Deflating.Deflater.OutputMatch | archival/gzip.c:1854-1878 | the output, recorded or sent, stands for the input up to the end of the match |
| Deflating.Deflater.OutputLiteral | archival/gzip.c:1879-1890 | the output stands for the input up to strstart |
| Deflating.Deflater.Step | archival/gzip.c:1819-1898 | one step of lazy matching keeps the invariant and advances |
| Deflating.Deflater.Refill | archival/gzip.c:1901-1906 | sliding the window loses neither the pending literal nor the pending match |
| Deflating.Deflater.Finish | archival/gzip.c:1908-1911 | the last literal and the last block make the output complete |
| Deflating.Deflater.Deflate | archival/gzip.c:1810-1912 | the recorded tokens expand to exactly the input read, lengths 3 to 258 and distances 1 to MAX_DIST, and the output decodes to it |
| Gzip.MemberReadsBack | archival/gzip.c:2064-2103 | header, complete compressed data and trailer are read back by RFC 1952 |
| Gzip.WriteMagic | archival/gzip.c:2070-2075 | the magic number, method 8, no flags and no time stamp |
| Gzip.WriteFlags | archival/gzip.c:2084-2094 | extra flags and operating system complete the ten header bytes |
| Gzip.WriteBody | archival/gzip.c:2080-2096 | the compressed data decodes to what was read, all of the input unless a read failed |
| Gzip.WriteTrailer | archival/gzip.c:2098-2102 | the complemented crc and the size modulo 2^32 end the file |
| Gzip.Zip | archival/gzip.c:2064-2103 | reading the file back gives what was read from the input, all of it unless a read failed |
| Primes.RoughIsPrime | coreutils/factor.c:189-216 | a number without divisors up to its square root is prime |
| Primes.SmallestIsPrime | coreutils/factor.c:195-201 | the smallest divisor of a number is prime |
| Primes.JoinFactors | coreutils/factor.c:161-217 | small primes split off and a factorization of the rest make a factorization in order |
| Primes.SquareFactors | coreutils/factor.c:148-153 | the factors of a square are those of its root, twice |
| Primes.FactorizationUnique | coreutils/factor.c:161-217 | the printed factors are the only ones possible |
| Wheels.UnpackWheel | coreutils/factor.c:101-120 | all rows of the packed table are unpacked in order |
| Wheels.TableOk | coreutils/factor.c:101-120 | every increment of the table skips only multiples of 2, 3, 5, 7 and 11, and a turn ends where it began |
| Wheels.WheelVisits | coreutils/factor.c:189-211 | the unpacked wheel visits every number above 11 that is coprime to 2310 |
| Wheels.WheelStep | coreutils/factor.c:204-211 | from any turn of the wheel, the next increment skips only multiples of 2, 3, 5, 7 and 11 |
| Isqrts.IsqrtUll | libbb/isqrt.c:65-82 | the largest number whose square is not above the argument |
| Factors.CountBound | coreutils/factor.c:149 | square_count stays below 64 for what has still to be factored |
| Factors.RoughOverGap | coreutils/factor.c:204-211 | divisors skipped by the wheel cannot divide what is left |
| Factors.OddRoughIsPrime | coreutils/factor.c:155-158 | stopping at the largest odd number up to the root is enough |
| Factors.Factorizer.constructor | coreutils/factor.c:237 | the wheel is unpacked and nothing is printed |
| Factors.Factorizer.PrintW | coreutils/factor.c:123-129 | the number is printed square_count times |
| Factors.Factorizer.IsqrtOdd | coreutils/factor.c:137-159 | the odd bound for divisors, or 0 after the factors of a perfect square are all printed |
| Factors.Factorizer.Strip | coreutils/factor.c:195-201 | a divisor is printed as often as it divides and divides no longer, or a square finishes the line |
| Factors.Factorizer.Factorize | coreutils/factor.c:161-217 | the prime factors in order, each square_count times, and a newline; recursion and loop end |
| Factors.Factorizer.FactorizeNum | coreutils/factor.c:229-231 | the line of one number: its prime factorization in non-decreasing order |
| Versions.CompareReverses | archival/dpkg.c:245-282 | the order on parts is antisymmetric in sign |
| Versions.CompareTransitive | archival/dpkg.c:245-282 | the order on parts is transitive, strictly if one step is strict |
| Versions.LongerIsLarger | archival/dpkg.c:262-279 | without leading zeros the longer digit run is the larger number |
| Versions.FirstDiffDecides | archival/dpkg.c:267-279 | between runs of one length the first different digit decides |
| Versions.CompareChars | archival/dpkg.c:253-260 | the parts outside of numbers decide as the policy's order does, or both strings stand at numbers |
| Versions.CompareDigits | archival/dpkg.c:267-279 | digit runs are compared as unbounded integers |
| Versions.VersionComparePart | archival/dpkg.c:245-282 | the sign is that of the policy's order on the two parts |
| Versions.SplitVersion | archival/dpkg.c:299-329 | the version is an epoch without colons, a colon, upstream version, hyphen and a revision without hyphens; without a colon or hyphen the epoch is 0 or the revision empty |
| Versions.SplitOnce | archival/dpkg.c:299-329 | a version has exactly one such split |
| Versions.EpochOnce | archival/dpkg.c:299-308 | an epoch can be cut off in one way only, at the first colon |
| Versions.RevisionOnce | archival/dpkg.c:316-328 | a revision can be cut off in one way only, at the last hyphen |
| Versions.AtoiStops | archival/dpkg.c:302 | the number read for the epoch depends only on the text before the colon |
| Versions.VersionCompare | archival/dpkg.c:288-339 | the sign is that of the order on epoch, upstream version and revision |
| Versions.VersionsReverse | archival/dpkg.c:288-339 | swapping the versions negates the sign |
| Versions.VersionsTransitive | archival/dpkg.c:288-339 | the order on versions is transitive, strictly if one step is strict |
| Versions.VersionsCongruent | archival/dpkg.c:288-339 | equal versions compare alike with every other |
| Versions.NoRevisionIsZero | archival/dpkg.c:288-339 | a missing revision equals revision 0 |
| Versions.TestVersion | archival/dpkg.c:341-359 | the relation named by the operator holds between the versions |
| Probing.AddrDistinct | archival/dpkg.c:194-211 | as many probes as a prime table has slots never meet a slot twice |
| Probing.EverySlot | archival/dpkg.c:194-211 | within that many probes every slot is seen |
| DpkgTables.MakeHash | archival/dpkg.c:174-191 | start inside the table and a step from 1 to its size less 1, for every key and either width of a long |
| DpkgTables.MakeHashOk | archival/dpkg.c:174-191 | make_hash is a hashing that the tables can rely on |
| DpkgTables.TablePrimes | archival/dpkg.c:88-116 | the three table sizes are prime |
| DpkgTables.FreeEnds | archival/dpkg.c:194-211 | every search ends while a slot is free |
| DpkgTables.PackagePut | archival/dpkg.c:690-693 | replacing or adding a package leaves every package and status reachable |
| DpkgTables.StatusPut | archival/dpkg.c:793-795 | replacing or adding a status leaves every status reachable, one per package name |
| DpkgTables.Database.constructor | archival/dpkg.c:123-135 | three empty tables of their sizes |
| DpkgTables.Database.SearchName | archival/dpkg.c:194-211 | the name is at the index returned, newly only if it was nowhere; no other name moves |
| DpkgTables.IndexIsIdentity | archival/dpkg.c:194-211 | over every run of searches, indices are equal exactly for equal names |
| DpkgTables.Database.SearchStatus | archival/dpkg.c:216-232 | the one status of that package name, or the free slot where it belongs |
| DpkgTables.Database.SearchPackage | archival/dpkg.c:361-382 | a package of that name with a fitting version, or a free slot if there is none at all |
| DpkgTables.Database.PutPackage | archival/dpkg.c:690-693 | the package replaces an equal version or takes a free slot; all tables stay consistent |
| DpkgTables.Database.PutStatus | archival/dpkg.c:793-795 | the status replaces that of the same package name or takes a free slot; all tables stay consistent |
| DpkgEdges.GroupedAppend | archival/dpkg.c:434-524 | groups after groups are groups |
| DpkgEdges.FieldGrouped | archival/dpkg.c:449-517 | the items of one field are a group whose OR edge counts the alternatives after it, or single edges |
| DpkgEdges.FieldsGrouped | archival/dpkg.c:434-524 | all fields of a line make well-formed groups |
| DpkgEdges.NoTokens | archival/dpkg.c:447-452 | no token is found exactly if there is nothing but delimiters |
| DpkgEdges.NoAlternatives | archival/dpkg.c:449-455 | a field has no alternative exactly if it is bars only, after any spaces |
| DpkgEdges.TokensJoin | archival/dpkg.c:447-521 | the tokens of a joined line are those of both parts |
| DpkgEdges.NullTokenWhen | archival/dpkg.c:434-524 | a missing token is compared as a string exactly if the line has no field, or some field has no alternative and none before it an illegal operator |
| DpkgEdges.IllegalWhen | archival/dpkg.c:473-497 | an illegal operator is reported exactly if some field has one and every field before it has an alternative |
| DpkgEdges.TrailingComma | archival/dpkg.c:447-455 | a line that ends in a comma and a space is never taken |
| DpkgEdges.LibcCommaFails | archival/dpkg.c:447-455 | the line `libc6, ` runs into the missing token |
| DpkgSplits.AddField | archival/dpkg.c:449-517 | exactly the edges of the field are added with their names interned, or the field fails as its text says |
| DpkgSplits.AddSplitDependencies | archival/dpkg.c:434-524 | exactly the edges of all fields are added and stay well-formed groups; a crash and an illegal operator are reported exactly when their conditions on the text hold |
| DpkgSplits.FillPackage | archival/dpkg.c:623-694 | the package is stored as its fields describe it, or skipped without a version, or not taken; all tables stay consistent and every stored package has its edges in groups |
| DpkgSplits.AddEntry | archival/dpkg.c:771-800 | an entry of the status file stores its package and the status of that package name |
| DpkgSplits.SameName | archival/dpkg.c:194-211 | indices of interned names are equal exactly for equal names |
| DpkgDeps.GetStatus | archival/dpkg.c:697-717 | the index of the first or third word of the status |
| DpkgDeps.FittingAlike | archival/dpkg.c:968-983 | whichever fitting package a search returns, it meets the dependency exactly if any does |
| DpkgDeps.PackageSatisfiesDependency | archival/dpkg.c:968-983 | true exactly if the status of that name says install, or for a pre-dependency installed |
| DpkgDeps.SearchForProvides | archival/dpkg.c:400-413 | the first package after the given one that provides the name, or -1 if there is none |
| DpkgDeps.IsSatisfied | archival/dpkg.c:1118-1152 | an edge is met exactly if some stored package of its name and a fitting version is ready, or some provider is |
| DpkgDeps.CheckEdges | archival/dpkg.c:1101-1181 | succeeds exactly if every group has a satisfied alternative; the skip over a group never misaligns |
| DpkgDeps.CheckDependencies | archival/dpkg.c:1069-1182 | the pass over the tables succeeds exactly if this holds for every stored package whose status says install; no group is ever found corrupt |
| Exprs.PrintedReads | coreutils/expr.c:321-541 | every level reads a tree printed for it as its value, wherever it stands |
| Exprs.PrintedEvaluates | coreutils/expr.c:526-541 | a printed expression evaluates to the tree's value or error, with no token left |
| Exprs.EvalSpells | coreutils/expr.c:321-541 | whatever a level evaluates is a tree printed for that level, with that value |
| Exprs.EvaluatesTrees | coreutils/expr.c:526-541 | the arguments evaluate to a value with none left if and only if they are some tree with that value |
| ExprEvals.Evaluator.Eval | coreutils/expr.c:526-541 | the loop over the or operator evaluates as level 0 of the grammar, operators grouping to the left |
| ExprEvals.Evaluator.Eval1 | coreutils/expr.c:506-522 | the loop over the and operator evaluates as level 1 of the grammar |
| ExprEvals.Evaluator.Eval2 | coreutils/expr.c:476-502 | the loop over comparisons evaluates as level 2 of the grammar |
| ExprEvals.Evaluator.Eval3 | coreutils/expr.c:452-472 | the loop over `+` and `-` evaluates as level 3 of the grammar |
| ExprEvals.Evaluator.Eval4 | coreutils/expr.c:428-448 | the loop over `*`, `/` and `%` evaluates as level 4 of the grammar |
| ExprEvals.Evaluator.Eval5 | coreutils/expr.c:410-424 | the loop over `:` evaluates as level 5 of the grammar |
| ExprEvals.Evaluator.Eval6 | coreutils/expr.c:345-405 | keywords take their operands as level 6 of the grammar does |
| ExprEvals.Evaluator.Eval7 | coreutils/expr.c:321-341 | a token or a parenthesized expression, and the syntax errors |
| ExprEvals.ExprMain | coreutils/expr.c:544-563 | the result is that of every tree the arguments spell, and a value only if they spell one; no argument and left-over arguments are errors |
| Adlers.NoWrap | archival/lzop.c:501-528 | within 5552 bytes neither sum leaves 32 bits |
| Adlers.AdlerSplits | archival/lzop.c:546-553 | how the data is split across calls does not matter |
| Adlers.AddChunk | archival/lzop.c:518-523 | a chunk is added without reduction and without wrapping |
| Adlers.LzoAdler32 | archival/lzop.c:501-528 | from a reduced start, the byte-by-byte reduced sums of section 8.2 of RFC 1950 |
| Lzops.StoredBack | archival/lzop.c:755-867 | a block that did not shrink is read back as it is |
| Lzops.ShrunkBack | archival/lzop.c:755-867 | a compressed block is read back through the codec's inverse |
| Lzops.FramedBack | archival/lzop.c:626-733 | all blocks are read back, for every subset of the four checksum flags |
| LzopFiles.CompressBlock | archival/lzop.c:667-723 | the lengths, the checksums asked for and the shorter form are written |
| LzopFiles.LzoCompress | archival/lzop.c:626-733 | the data is framed in blocks of 256 KiB and a zero length ends it |
| LzopFiles.Unpack | archival/lzop.c:819-859 | what is returned has the right length, comes from the payload and agrees with every checksum asked for; nothing is returned only if nothing does |
| LzopFiles.ReadBodyIs | archival/lzop.c:799-862 | a block body is read as some bytes exactly if its payload holds them and its checksums agree |
| LzopFiles.DecompressBody | archival/lzop.c:799-862 | words and payload are read in their order; short input is refused |
| LzopFiles.LzoDecompress | archival/lzop.c:755-867 | exactly the blocks up to the zero length are read, or the data is refused |
| LzopHeaders.HeaderBack | archival/lzop.c:914-1018 | a header that was written is read back, and accepted or turned down with the code of its first wrong field |
| LzopHeaders.ExtraAccepted | archival/lzop.c:1000-1015 | an extra field is accepted exactly if its bytes are followed by their checksum |
| LzopHeaders.ExtraHeaderBack | archival/lzop.c:934-1018 | a header with an extra field behind it is read back, and judged by its fields alone |
| LzopHeaders.OwnHeader | archival/lzop.c:1051-1077 | the header built from any options is acceptable |
| LzopHeaders.ReadHeader | archival/lzop.c:934-1018 | the checks in their order with their codes, and where the data begins |
| LzopHeaders.ReadExtra | archival/lzop.c:1000-1015 | the extra field is skipped byte by byte and its checksum compared |
| LzopHeaders.TakenBack | archival/lzop.c:1082-1092 | any file with an acceptable header is read back |
| LzopHeaders.FileBack | archival/lzop.c:1051-1092 | whatever the options, a file is read back, with or without verifying checksums, whatever follows it |
| LzopHeaders.DoLzoCompress | archival/lzop.c:1051-1077 | what is written is read back as the data; it fails exactly if high compression is asked for and not there |
| LzopHeaders.DoLzoDecompress | archival/lzop.c:1082-1092 | magic, header and blocks are read, or the file is refused |
| Expands.Expand | coreutils/expand.c:71-129 | the layout by absolute columns, though only the stretch after the last tab is measured; with -i only leading blanks |
| Expands.TabsAlign | coreutils/expand.c:110-123 | every expanded tab ends on a multiple of the tab size |
| Expands.PutRun | coreutils/expand.c:156-161 | a run of blanks becomes tabs and then spaces up to the same column |
| Expands.Unexpand | coreutils/expand.c:133-184 | runs of blanks are replaced, with -a all of them, else those up to the first word and after it |
| Expands.RunShortest | coreutils/expand.c:156-161 | no blanks that end at the same column are fewer |
| Expands.UnexpandKeepsLayout | coreutils/expand.c:133-184 | expand shows a line and its unexpanded form alike if and only if no trailing tab was dropped |
| Expands.NewlineKept | coreutils/expand.c:133-184 | a line that ends in a newline always keeps its layout |
| Expands.TrailingTabLost | coreutils/expand.c:150-154 | a last line without newline that ends in a tab loses it |
| Expands.UnexpandedShortest | coreutils/expand.c:133-184 | with -a no line with the same layout is shorter |

## Left out

- gzip: option parsing, file names, time stamps and permissions, progress and error messages, the levels table (a level is any set of its four limits), trace output.
- gzip: CRC-32 itself; the crc in the trailer is that of the given step function over exactly the bytes read.
- gzip: inflating; `Inflate` is a specification, not a model of the decompressor in the repository.
- factor: parsing of numbers and reading them from standard input.
- dpkg: cutting control and status files into fields, writing them, unpacking, scripts, the conflicts pass and the reporting of `check_deps`.
- expr: regular expressions themselves, printing of the result and the exit code, locale dependent string comparison.
- lzop: what was written before a file is refused; the LZO codecs and `lzo1x_optimize`, which rewrites compressed blocks; file names and modes; reading of more than one file.
- expand: Unicode widths and lines with NUL characters; several files.
- Expands.Expand: columns and paddings are unbounded here and 32 bits wide in the source; a tab size or a stretch of 2^31 columns and more is not modelled.
- Expands.Unexpand: columns are unbounded here; a run of blanks that reaches column 2^32, with a tab size in the billions or a line of gigabytes, is not modelled.
- DpkgTables.Database.SearchName: requires a free slot or the name itself in the table, as the source does; a full table without the name is not modelled.
- DpkgSplits.FillPackage: requires room for the names and a free slot; the 16-bit widths of edge counts and versions in the C structures are not modelled.
- DpkgSplits.AddEntry: an entry of the status file without a status line, which leaves the status uninitialised, is not modelled.
- DpkgDeps.CheckDependencies: requires room for the words of the statuses and a free slot in each table, without which the searches of the source would not end.
