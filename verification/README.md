# Verified models for microdc2

This project models the parts of microdc2 where a mistake would lose or corrupt data silently, and
proves in Dafny that they do what they are for:

- **The Huffman codec** of file lists (`src/huffman.c`). The tree built by the merge loop is optimal
  among all prefix codes for the byte counts; the code words fit their 32-bit fields if and only if
  the tree is no deeper than 32, which is so for every text below 11405773 bytes and not for every
  text of that size; decoding an encoded text gives back the text.
- **The file list** and its forms (`src/fs.c`, `src/filelist-in.c`, `src/local_flist.c`): the
  tab-indented DcLst text, the binary form sent between processes, paths, the full scan of a shared
  directory and its incremental refresh. Each form is read back to the same tree, for any iteration
  order of the hash maps, and a refresh agrees with a full scan.
- **getopt** in PERMUTE mode (`lib/getopt.c`): the in-place block exchange and the whole sequence of
  calls.
- **human_readable** (`lib/human.c`), the integer path: the printed number is the exact quotient
  rounded at its last digit.
- **fnmatch** with FNM_PERIOD (`lib/fnmatch_loop.c`) against the pattern notation of POSIX.1, Shell
  Command Language, section 2.13.
- **The hub stream, chat escaping, the lock answer and the download queue** (`src/hub.c`,
  `src/connection.c`, `src/command.c`).

The repository's C code changes things in place, and so does the model: trees of nodes with parent
links, arrays filled at moving positions, a buffer in which the parser stores NUL bytes, a sorted
list, a queue that is compacted. Every such method is proved against a mathematical specification
(a function or a relation), and the lemmas are about those specifications. Each module names the
part of the program it models in its first line.

`dafny verify dfyconfig.toml` checks the whole project.

## How the pieces fit

- `Bytes`, `Decimal`, `Wrappers`: bytes, bits, little-endian numbers, decimal numbers; `InNumbers`
  says what each bit, byte and digit is worth.
- `PrefixCodes` (Kraft's inequality and the exchange argument), `HuffmanTree` (trees, weights, the
  Fibonacci bound), `HuffmanMerge` (the sorted list and the merge loop), `HuffmanDepth` and
  `HuffmanDeepest` (the exact bound on the depth), `HuffmanAnyOrder` (the bound for an unknown order
  of ties), `HuffmanLarge` (a text of 2^31 bytes whose tree is not optimal), `HuffmanCode` and
  `HuffmanEncode` (code words, tables, packed bits), `HuffmanDecode` (the trie of nodes and the walk
  through the bits), `HuffmanCutOff` (files that end inside a code word), `HuffmanRoundTrip`,
  `HuffmanFormat` (what the encoder writes, byte by byte), `HuffmanExact` (what the decoder makes of
  any data).
- `FileTree` (trees as values, and traversals of a tree in some order), `FileWalk` (which traversals
  a tree has), `FileNodes` (nodes in memory), `DcLst`, `DcLstPrint`, `DcLstScan`, `DcLstParse`,
  `DcLstRoundTrip` (the text form), `DcLstFormat` (its lines, byte by byte), `DcLstWeight` and
  `DcLstExact` (which trees survive it), `FileListFile` (text and codec together), `FileListData`,
  `FileListUnpack` (the binary form), `FilePath`.
- `Refresh` (what a scan and a refresh give, on values), `Footprint` (which nodes a subtree consists
  of), `RefreshDir`, `RefreshNodes`, `RefreshAgain`, `FullScan` (the same on nodes), `RefreshPaths`
  (trees, queue and result path by path).
- `Getopt` and `GetoptEvents` (any results, written out and delivered); `Human`, `Fnmatch`,
  `HubStream`, `Messages`, `Lock`, `Unqueue`: one module each.

Round trips alone would allow a writer and a reader that are wrong in the same way. So each format and
notation is also stated without the functions of the model, in the bytes and numbers of the program.

Where the program reads outside its buffer, calls the operating system or uses arithmetic modulo a
power of two, the model says so: `HuffmanDecode.Decode` has a separate outcome for a bit read behind
the data, 32-bit positions wrap around, `HuffmanMerge.CompareEncodeNode` subtracts 32-bit counts, and
`Human.Divide` multiplies modulo 2^64.

Things the proofs brought out, where the code and its intention differ:

- `compare_encode_node` tells the smaller of two counts exactly when their difference fits a signed
  int (`HuffmanMerge.CompareOrdersExactly`). In a text below 2^31 bytes all differences do. In a
  text of 2^31 + 4 bytes the list of leaves can be out of order and the tree cost nearly twice as much
  as another prefix code (`HuffmanLarge.LargeTextsLoseOptimality`).
- Whatever order nodes of equal weight are merged in, no code word is longer than 32 bits below
  9227465 bytes, the 35th Fibonacci number (`HuffmanMerge.AnyOrderFits`), and some order makes a
  longer one of leaves with that total (`HuffmanAnyOrder.BoundIsTight`). With the order that
  `compare_encode_node` and `ptrv_insort` give, the first text with a longer one has 11405773 bytes
  (`HuffmanDepth.TreeForDepth`, `HuffmanEncode.LimitIsSharp`).
- `huffman_decode` reads a bit behind its data if and only if the bits behind the tables are fewer
  code words than the file promises, and behind them one that is only begun
  (`HuffmanCutOff.PastEndExactly`, with a file of 14 bytes in `HuffmanCutOff.PastEndHappens`).
- A tree survives the DcLst text if and only if its file sizes fit 64 bits and its names are
  printable: no CR, bar or NUL, no tab in front, no line feed in front on the top level, no directory
  without a name (`DcLstExact.TextRoundTripExactly`).
- `filelist_get_path_with_trailing_slash` tests the type of the root after its loop, not the type of
  the node it was given: the path of a file gets a trailing slash too. Looking it up still finds the
  file.
- A refresh makes the tree of a full scan if and only if no name changes between file, directory and
  something else (`Refresh.RefreshIsRescan`, `Refresh.RescanNeedsSameKinds`, with a change that is
  missed in `Refresh.KindChangeIsMissed`).
- A second pass over an unchanged disk reports a change if and only if some entry that the tree does
  not have is neither a file nor a directory (`RefreshAgain.PassTwice`,
  `RefreshAgain.DeviceIsReported`); when no kinds changed, any such entry will do.
- A refresh takes nothing out of the queue of files to hash. Afterwards the queue names only nodes of
  the tree if and only if no queued node was under a name that is gone (`RefreshNodes.QueueStaysLive`,
  `RefreshNodes.GoneDoNotSurvive`).
- `human_readable` multiplies remainders by 10 and by 2 without a check. The digits are exact if and
  only if neither product exceeds 64 bits (`Human.Divide`). For the printed number this matters less
  (`Human.HumanReadable`, `Human.RoundsRightExactly`). Rounding down is always right. Rounding to
  nearest is wrong if and only if ten times the remainder exceeds 64 bits and the remainder has to be
  rounded up (`Human.DivisionCanWrap`). The ceiling is wrong if and only if the divisor is above 2^63
  and the remainder is 2^62, 2^63 or 3 * 2^62 (`Human.CeilingCanFail`). From ten units on nothing
  wraps (`Human.LargeQuotientFits`).

## Model

| member | source | states |
|---|---|---|
| InNumbers.BitInNumbers | src/huffman.c:35-35 | bit k of a byte is its binary digit of weight 1, 2, 4, ..., 128 |
| InNumbers.SetBitInNumbers | src/huffman.c:36-36 | setting a bit that is not set adds its weight, and setting one that is set changes nothing |
| InNumbers.BitAtInNumbers | src/huffman.c:34-35 | bit position pos names the digit of weight 2^(pos mod 8) of byte pos / 8 |
| InNumbers.ByteOfBits | src/huffman.c:34-36 | every byte is the sum of the weights of its eight bits, the first one counting least |
| InNumbers.XorInNumbers | src/huffman.c:197-199 | the exclusive or has the digits in which two bytes differ |
| InNumbers.ParityInNumbers | src/huffman.c:197-199 | the parity of the empty text is 0, and each byte flips the digits it has |
| InNumbers.WordInNumbers | src/huffman.c:264-265 | the first byte of a word of two or four bytes counts least |
| InNumbers.WordByte | src/filelist-in.c:79-118 | byte i of a word is its digit of weight 256^i |
| InNumbers.DigitAt | src/fs.c:614-614 | the last decimal digit is worth one, each other ten times the one behind it, and 48 is zero |
| InNumbers.NumberOfDigits | src/fs.c:614-614 | a number is written without zeros in front |
| InNumbers.ValueAt | src/common/intutil.c:259-275 | the value of a string of digits has those digits |
| PrefixCodes.KraftInequality | src/huffman.c:179-189 | the lengths of any prefix-free set of words satisfy Kraft's inequality: the lower bound every code is measured against |
| PrefixCodes.Balance | src/huffman.c:179-189 | the exchange argument: any admissible lengths can be changed, without more weight, so that the two lightest symbols share the longest length |
| HuffmanTree.DepthNeedsWeight | src/huffman.c:179-189 | a tree in which no node weighs less than a child of its sibling has weight at least F(depth + 2) |
| HuffmanTree.SiblingsNeedWeight | src/huffman.c:179-189 | the same for two siblings of which one is deep |
| HuffmanTree.DepthAtMost32 | src/huffman.c:44-47 | a tree of that shape of weight below 9227465 has no path longer than 32, the width of the stored code word |
| HuffmanTree.FibTreeIsTight | src/huffman.c:179-189 | among trees of that shape the Fibonacci weight is attained for every depth |
| HuffmanTree.FibTreeSymbols | src/huffman.c:165-177 | by trees whose leaves have different symbols |
| HuffmanMerge.CompareOrdersByCount | src/huffman.c:101-111 | below 2^31 the comparison is consistent with the counts, whatever the tie order |
| HuffmanMerge.CompareOrdersExactly | src/huffman.c:101-111 | on 32-bit counts the comparison is right if and only if the difference fits a signed int |
| HuffmanMerge.CompareMisordersLargeCounts | src/huffman.c:101-111 | two counts of one 32-bit text, both of bytes that occur, that are compared wrongly |
| HuffmanMerge.Insort | src/common/ptrv.c:158-180 | puts the node in front of the first entry that it does not compare greater than |
| HuffmanMerge.InsortSorts | src/huffman.c:101-111 | below 2^31 the list stays sorted, and a merged node goes behind all nodes of its weight |
| HuffmanMerge.MergeKeepsShape | src/huffman.c:179-189 | every merge keeps: each queued node weighs at least each child of each queued node |
| HuffmanMerge.AnyOrderShaped | src/huffman.c:179-189 | for every run of the merge loop, whatever the order of ties: the last tree has that shape and the total weight of the list |
| HuffmanMerge.AnyOrderFits | src/huffman.c:159-191 | below 9227465 bytes, whatever the order of ties, no tree the loop can end with is deeper than 32 |
| HuffmanMerge.InsortIsAnOrder | src/common/ptrv.c:158-180 | below 2^31 the place the program chooses is one such order |
| HuffmanAnyOrder.BoundIsTight | src/huffman.c:179-189 | for every depth some sorted leaves of total F(depth + 2) and some order of ties end in a tree that deep |
| HuffmanMerge.MergeKeepsCover | src/huffman.c:179-189 | every merge keeps the symbols, their weights and the cost already paid |
| HuffmanMerge.MergeAchieves | src/huffman.c:179-189 | what some code for the queued weights achieves before a merge is still achievable after it |
| HuffmanMerge.PrefixCodeAchieves | src/huffman.c:165-177 | the cost of every prefix code is achievable from the initial list of leaves |
| HuffmanMerge.SingleTreeIsOptimal | src/huffman.c:179-191 | when one tree is left its cost is no more than anything achievable |
| HuffmanMerge.MergeTreeIsOptimal | src/huffman.c:179-191 | merging a sorted list to the end costs no more than any assignment of lengths |
| HuffmanMerge.LeavesAreQueued | src/huffman.c:165-177 | the list of leaves holds each occurring byte once with its count |
| HuffmanMerge.TreeForCovers | src/huffman.c:159-192 | for any counts the tree has exactly the symbols that occur, with their counts |
| HuffmanMerge.TreeForIsOptimal | src/huffman.c:159-192 | below 2^31 bytes no prefix code for the counts costs less than the tree |
| HuffmanLarge.LargeTextsLoseOptimality | src/huffman.c:101-111 | counts of total 2^31 + 4: the list of leaves is out of order, and the tree costs 2^31 more than a prefix code for the same counts |
| HuffmanMerge.QueueLeaves | src/huffman.c:165-177 | the loop makes that list, for any counts, and counts the symbols |
| HuffmanMerge.MergeAll | src/huffman.c:179-191 | the merge loop, with 32-bit additions, ends with the tree that merging to the end gives |
| HuffmanMerge.BuildTree | src/huffman.c:159-192 | for every text of 32-bit size the tree has exactly the occurring bytes; below 2^31 bytes it costs no more than any prefix code |
| HuffmanDepth.MergeSettles | src/huffman.c:101-111 | every merge keeps: a queued node with an equal behind it is as heavy as a full tree of its depth, and children are lighter than queued nodes or full |
| HuffmanDepth.SteepNeedsWeight | src/huffman.c:179-189 | in a tree the merge loop makes, depth d needs the weight 1, 2, 3, 5, 9, 15, 25, ... |
| HuffmanDepth.LeastWeightIsFib | src/huffman.c:179-189 | that weight is 2 F(d + 1) - 1 |
| HuffmanDepth.TreeForDepth | src/huffman.c:44-47 | every text is at least that long for its tree's depth; below 11405773 bytes no path is longer than 32 |
| HuffmanDeepest.DepthIsReached | src/huffman.c:159-192 | for every depth from 3 on that totals below 2^31 allow there are counts of exactly that total whose tree is that deep |
| HuffmanCode.LeavesAreNotPrefixes | src/huffman.c:113-123 | paths to different leaves are not prefixes of each other |
| HuffmanCode.TreeCodeIsPrefixFree | src/huffman.c:113-123 | the code words of the tree are prefix-free |
| HuffmanCode.TreeCodeCost | src/huffman.c:113-123 | count times code length, summed, is the cost of the tree |
| HuffmanCode.TreeCodeFitsExactly | src/huffman.c:44-47 | the code words have at most 32 bits if and only if the tree is no deeper than 32 |
| HuffmanCode.WordFits32 | src/huffman.c:44-47 | a code word of at most 32 bits loses nothing in its 32-bit field |
| HuffmanCode.BitOfWord | src/huffman.c:125-135 | bit c of the stored word, counted from the top, is bit c of the path |
| HuffmanEncode.MakeHuffmanBits | src/huffman.c:113-123 | stores for every leaf its path as 32-bit value and 8-bit length, and touches no other entry |
| HuffmanEncode.AddBits | src/huffman.c:125-135 | appends exactly the bits of the code word behind what was written and leaves the rest zero |
| HuffmanEncode.CountBytes | src/huffman.c:161-163 | the array holds the number of occurrences of every byte |
| HuffmanEncode.ComputeParity | src/huffman.c:197-199 | the exclusive or of all bytes |
| HuffmanEncode.WriteTables | src/huffman.c:201-216 | writes the header and the leaf table, and adds up the lengths of both bit sections |
| HuffmanEncode.PackBits | src/huffman.c:218-231 | the buffer of the computed size is filled by both sections, each padded to a byte |
| HuffmanEncode.NoProductOverflow | src/huffman.c:213-213 | below the codec limit length times count does not wrap in 32 bits |
| HuffmanEncode.EncodableExactly | src/huffman.c:201-216 | for any counts: all code words fit their fields and the 32-bit products add up to the number of bits if and only if the tree is no deeper than 32 and no product wraps |
| HuffmanEncode.ShortTextsEncodable | src/huffman.c:137-238 | so it is for every text below 11405773 bytes |
| HuffmanEncode.DeepText | src/huffman.c:159-192 | such a depth is reached by a text of exactly the least size |
| HuffmanEncode.LimitIsSharp | src/huffman.c:44-47 | some text of 11405773 bytes has a code word of 33 bits |
| HuffmanEncode.Encode | src/huffman.c:137-238 | for every encodable text the output is the file layout for a prefix-free code whose words fit 32 bits, of minimal cost below 2^31 bytes; empty and single-symbol texts included |
| HuffmanDecode.InsertLeaf | src/huffman.c:285-304 | following the bits of a leaf adds exactly its prefixes to the trie and its value at the end |
| HuffmanDecode.BuildTrie | src/huffman.c:283-305 | the trie of nodes represents the code table read from the bits, whenever there are enough bits |
| HuffmanDecode.Walk | src/huffman.c:311-328 | the walk down the nodes gives the symbol and position the code table gives, for any data |
| HuffmanDecode.ReadHeader | src/huffman.c:257-281 | accepts exactly the headers with the right magic bytes and room for both tables |
| HuffmanDecode.Decode | src/huffman.c:243-343 | for any data the result is the one of the specification by code tables; parity is compared with byte 4 |
| HuffmanCutOff.PastEndExactly | src/huffman.c:311-320 | a bit behind the data is read if and only if the bits behind the tables are fewer code words than symbols are promised, followed by a proper prefix of a path in the trie |
| HuffmanCutOff.CutOffExactly | src/huffman.c:311-328 | following the bits through the trie runs out of them exactly when they divide in that way |
| HuffmanCutOff.PastEndHappens | src/huffman.c:313-317 | a file of 14 bytes that is read behind its end |
| HuffmanRoundTrip.ReadTrieRebuilds | src/huffman.c:285-305 | from the encoder's tables the trie is rebuilt with exactly the encoder's code words |
| HuffmanRoundTrip.WalkFindsSymbol | src/huffman.c:311-328 | wherever a code word stands in the bits, the walk finds its symbol and stops behind it |
| HuffmanRoundTrip.PreambleOfLayout | src/huffman.c:257-281 | the decoder reads from an encoded file the size, the leaves and both section starts the encoder meant |
| HuffmanRoundTrip.CodecRoundTrip | src/huffman.c:137-343 | decoding a compressed file of less than 2^32 bits succeeds, reads inside the file, returns the text, and the parity matches |
| HuffmanRoundTrip.NeverLonger | src/huffman.c:201-231 | the bits of the compressed text are no more than the bits of the text |
| HuffmanRoundTrip.FileSize | src/huffman.c:201-236 | the file is at most 1547 bytes longer than the text |
| HuffmanRoundTrip.EncodeThenDecode | src/huffman.c:137-343 | the two functions composed return the text, for every encodable text up to 512 MB less the tables |
| HuffmanRoundTrip.ShortTextsRoundTrip | src/huffman.c:137-343 | which every text below 11405773 bytes is |
| HuffmanFormat.EncodedFile | src/huffman.c:201-236 | the file of a text byte by byte: 72, 69, 51, 13, the parity, the size, the number of symbols, each symbol in increasing order with its code length, and both bit sections with zero bits behind them |
| HuffmanFormat.ConcatInOrder | src/huffman.c:226-231 | the code words of the text stand in the order of the text |
| HuffmanFormat.ShortestText | src/huffman.c:179-231 | no prefix code for the bytes of the text makes the second section shorter |
| HuffmanFormat.CodesOfPair | src/huffman.c:101-123 | with two symbols, the rarer one, or the greater one of two equally frequent, has the code word 0, the other 1 |
| HuffmanExact.PreambleExactly | src/huffman.c:257-281 | the header is accepted if and only if bytes 0 to 2 and both lengths are right; size, leaves and both section starts in numbers of the data |
| HuffmanExact.CodeWordsOf | src/huffman.c:283-305 | the code words are the pieces of the first section that the lengths cut off, and a later leaf takes over the code word of an earlier one |
| HuffmanExact.DecodedText | src/huffman.c:307-330 | for any data: a text that is returned is spelled by code words that stand one behind the other in the second section, as many as promised |
| HuffmanExact.TextDecodes | src/huffman.c:307-330 | for any data: whenever there are such code words, their text is returned |
| Decimal.ValueOfDigits | src/common/intutil.c:259-275 | the decimal digits of a number spell that number |
| Decimal.ParseUint64 | src/common/intutil.c:259-275 | succeeds exactly on digit strings whose value fits 64 bits, and returns the value |
| FileTree.SumWithout | src/filelist-in.c:172-179 | the total of the children does not depend on their order |
| FileTree.SumOfFew | src/filelist-in.c:172-179 | no child adds nothing, and one child its size |
| FileTree.TreeOfAdditive | src/filelist-in.c:172-179 | adding child sizes bottom up makes every directory size the total of the files beneath |
| FileWalk.VisitsAppend | src/fs.c:622-626 | a traversal that delivers one more child is a traversal of one child more |
| FileWalk.WalkDetermines | src/fs.c:617-627 | with additive sizes any traversal order determines the same tree |
| FileNodes.NewFileNode | src/fs.c:122-148 | a fresh node with empty fields, filed under its name in the parent in place of an older one |
| DcLstPrint.FilelistToString | src/fs.c:602-628 | appends exactly the lines of the tree in the order the hash maps delivered |
| DcLstScan.ScanLine | src/filelist-in.c:206-256 | reads one line of any text as specified, storing NULs in place, and leaves the rest of the buffer intact |
| DcLstScan.Terminated | src/filelist-in.c:231-241 | a NUL stored behind the name makes it a C string without changing what follows |
| DcLstParse.CloseTo | src/filelist-in.c:227-228 | truncating the dirs stack finishes the directories that are left and keeps the stack a root-to-current chain |
| DcLstParse.AddToAncestors | src/filelist-in.c:258-262 | exactly the directories from the current one up to the root grow by the size |
| DcLstParse.AddFile | src/filelist-in.c:230-262 | a file line puts one file into the current directory and its size into all ancestors |
| DcLstParse.AddDir | src/filelist-in.c:250-264 | a directory line opens a new current directory on the chain |
| DcLstParse.ParseLines | src/filelist-in.c:206-265 | over all lines the dirs stack is the chain of open directories, with parent links, and nothing else is shared |
| DcLstParse.ParseDecodedDclst | src/filelist-in.c:195-270 | for any text the nodes form the tree that the line-by-line specification gives |
| DcLstRoundTrip.AddEntriesEffect | src/filelist-in.c:206-265 | adding the entries of a directory one by one gives its children and its total size |
| DcLstRoundTrip.RunNode | src/filelist-in.c:206-265 | from any depth the printed lines of a node add exactly its tree to the parent |
| DcLstRoundTrip.TextRoundTrip | src/fs.c:602-628 | parsing a printed tree gives the same names, kinds and sizes, with directory sizes equal to the files beneath, for any child order |
| DcLstWeight.LoadAfterLine | src/filelist-in.c:230-264 | no line adds more to the open directories than its own name |
| DcLstExact.ParsedIsReadable | src/filelist-in.c:195-270 | no text at all parses to a tree with a name that holds CR, bar or NUL or starts with a tab, or with a size above 64 bits |
| DcLstExact.ParsedWeight | src/filelist-in.c:206-265 | a printed tree parses to one with fewer or shorter names, unless all its names are printable |
| DcLstExact.TextRoundTripExactly | src/fs.c:602-628 | a tree survives printing and parsing if and only if its names and sizes are printable |
| DcLstFormat.FileText | src/fs.c:602-614 | the line of a file: a byte 9 for every level below the first, the name, 124, the decimal size, 13, 10 |
| DcLstFormat.DirText | src/fs.c:615-627 | the line of a directory: bytes 9, the name, 13, 10, and then its entries one level deeper; the root has none |
| DcLstFormat.ReadAnyFile | src/filelist-in.c:206-256 | any line with a bar is a file of the depth its tabs say, if digits of a 64-bit number follow; otherwise it is skipped |
| DcLstFormat.ReadAnyDir | src/filelist-in.c:206-256 | any other line with a name is a directory |
| DcLstFormat.ReadAnyBlank | src/filelist-in.c:217-220 | a line without a name is skipped |
| DcLstFormat.ReadUnfinished | src/filelist-in.c:215-240 | a line without a CR ends the reading |
| DcLstFormat.ReadsFileText | src/filelist-in.c:206-256 | the line of a file is read back from its bytes, whatever follows |
| DcLstFormat.ReadsDirText | src/filelist-in.c:206-256 | so is the line of a directory |
| DcLstFormat.RepeatedName | src/filelist-in.c:247-262 | of two files with one name the second is kept, and the directory has the size of both |
| FileListFile.WriteFilelist | src/fs.c:648-652 | the file contents are the compressed text of a traversal of the tree |
| FileListFile.ShortTextsStorable | src/fs.c:648-652 | a tree whose text is shorter than 11405773 bytes in every order can be stored |
| FileListFile.OpenFilelist | src/filelist-in.c:310-318 | decompresses and parses any contents, and returns NULL where the codec rejects them |
| FileListFile.FileRoundTrip | src/filelist-in.c:195-270 | for additive trees every traversal's text parses to the bare tree if and only if names and sizes are printable |
| FileListFile.WriteThenOpen | src/fs.c:648-652 | a written file list opens, and as the same tree of names, kinds and sizes if and only if these are printable |
| FileListData.CalculateFilelistDataSize | src/filelist-in.c:60-77 | the size of the tree, independent of the iteration order |
| FileListData.DataSizesWithout | src/filelist-in.c:70-74 | the size of a directory's children may be added up in any order |
| FileListData.SerialSize | src/filelist-in.c:60-118 | the bytes of any traversal are exactly as many as were computed |
| FileListData.SerialFile | src/filelist-in.c:82-96 | the bytes of a file: type 1, name, NUL, size, hash flag, hash, time |
| FileListData.SerialDir | src/filelist-in.c:97-115 | the bytes of a directory: type 0, name, NUL, the real path if there is one, the number of entries, the entries |
| FileListData.SerialInOrder | src/filelist-in.c:111-115 | the entries stand one behind the other in the order of the traversal |
| FileListData.CopyFilelistToData | src/filelist-in.c:79-118 | writes the bytes of a traversal from the given position, exactly the computed number, and nothing else |
| FileListData.FilelistToData | src/filelist-in.c:120-138 | the buffer holds the bytes of a traversal and no byte more |
| FileListUnpack.DataToFilelist | src/filelist-in.c:140-193 | from such bytes, whatever follows, builds the tree of the traversal and stops at what follows |
| FileListUnpack.PackThenUnpack | src/filelist-in.c:120-193 | a file list packed in front of any suffix is unpacked to the same tree, with hashes and times |
| FilePath.LeadsToParent | src/fs.c:272-277 | one step up the parent links removes the last name of the path |
| FilePath.ClimbToRoot | src/fs.c:272-277 | the loop collects the names from the root to the node and ends at the root |
| FilePath.GetPath | src/fs.c:286-302 | the path of the node, "/" for the root |
| FilePath.GetPathWithTrailingSlash | src/fs.c:267-282 | the path with a slash behind it whenever the root is a directory |
| FilePath.LookupStep | src/fs.c:237-265 | one component of a path leads to the child of that name |
| FilePath.LookupOfPath | src/fs.c:237-265 | looking up the path of a node from the root, with or without a trailing slash, finds that node |
| FilePath.PathsLeadBack | src/fs.c:237-302 | the path functions and the lookup composed return the node itself |
| FilePath.PathInBytes | src/fs.c:286-302 | a path has a slash in front of every name and nothing else |
| FilePath.SlashesOnly | src/fs.c:237-252 | nothing is found without a slash in front, slashes alone name the node, several count as one |
| FilePath.LookupComponent | src/fs.c:180-265 | any component: "." is the node, ".." its parent or, at the top, the node, any other name a child or nothing; only directories have components behind them |
| Refresh.RefreshedNew | src/local_flist.c:306-328 | what is new on the disk comes in as a full scan would build it |
| Refresh.RefreshIsRescan | src/local_flist.c:219-362 | when no name changes its kind, names, kinds, sizes and times are those of a full scan |
| Refresh.RescanNeedsSameKinds | src/local_flist.c:290-306 | and only then |
| Refresh.KindChangeIsMissed | src/local_flist.c:290-306 | a file that became a directory: the refreshed tree is not the scanned one |
| Refresh.HashKeptExactly | src/local_flist.c:291-305 | a file has a hash afterwards if and only if it had the same one before and size and time on disk are unchanged |
| Refresh.RefreshedPlaced | src/local_flist.c:308-311 | real paths and ordinary names stay as a refresh needs them, even where kinds changed |
| Refresh.RefreshedShape | src/local_flist.c:308-311 | and so do kinds, where they agreed with the disk |
| Refresh.RefreshTwice | src/local_flist.c:219-362 | a second refresh leaves the tree as it is, even where kinds changed |
| RefreshDir.DeleteMissing | src/local_flist.c:233-267 | removes exactly the names that are gone, keeps the others, and reports whether there were any |
| RefreshDir.TouchFile | src/local_flist.c:291-304 | a known file is updated and queued exactly when it changed or has no hash |
| RefreshDir.TouchEntry | src/local_flist.c:272-333 | what one name of the directory does to the tree, the queue and the result |
| RefreshDir.TouchEntries | src/local_flist.c:270-335 | after the directory loop children, queue and result are those of the specification, in any listing order |
| RefreshNodes.VisitAll | src/local_flist.c:339-354 | the loop over the children refreshes each subtree once and adds up the sizes |
| RefreshNodes.ReportsSame | src/local_flist.c:296-298 | the result depends on the queue only through the nodes of the tree itself |
| RefreshNodes.PassQueueHolds | src/local_flist.c:296-304 | together the loops queue exactly the files without a hash |
| RefreshNodes.LookupFilelistChanges | src/local_flist.c:219-362 | one pass leaves the specified tree, queues every file without a hash and none twice, frees exactly what was under a name that is gone, and returns true exactly when something was gone, new or changed |
| RefreshNodes.LookupRootChanges | src/local_flist.c:219-362 | the same for the root of the list, which has no real path: every share is refreshed from its own directory |
| RefreshNodes.QueueStaysLive | src/local_flist.c:249-262 | the queue names only nodes of the tree if and only if no queued node was under a name that is gone |
| RefreshNodes.GoneDoNotSurvive | src/local_flist.c:249-262 | a node under a name that is gone is not in the tree afterwards |
| RefreshAgain.SecondPass | src/local_flist.c:290-330 | on an up-to-date tree a pass reports a change if and only if some entry the tree does not have is neither file nor directory |
| RefreshAgain.DeviceIsReported | src/local_flist.c:306-328 | a directory with one device: the tree is up to date and a pass reports a change |
| RefreshAgain.RefreshedIsUpToDate | src/local_flist.c:219-362 | a refreshed tree is up to date with its snapshot, even where kinds changed |
| RefreshAgain.RestlessStays | src/local_flist.c:306-328 | a refresh does not change which entries are reported again and again |
| RefreshAgain.RestlessIsOther | src/local_flist.c:306-328 | when no kinds changed these are all entries that are neither file nor directory |
| RefreshAgain.PassTwice | src/local_flist.c:219-362 | two passes on nodes over one snapshot: the second leaves the tree of the first, and reports a change if and only if such an entry exists, whatever kinds changed |
| FullScan.ScanEntry | src/fs.c:534-591 | one directory entry adds the tree a scan gives for it, or nothing |
| FullScan.DirToFilelist | src/fs.c:513-600 | the nodes built hold the tree of a full scan, in any listing order |
| RefreshPaths.QuietPass | src/local_flist.c:233-330 | a pass that returns false: at no path that it looks at is anything gone or new, and every file there that was not queued has the size and time of the disk |
| RefreshPaths.LoudPass | src/local_flist.c:233-330 | a pass that returns true: at some path something is gone, or new, or a file has changed that was not queued |
| RefreshPaths.LiveByPath | src/local_flist.c:249-262 | a node of the tree stands at the end of a path |
| RefreshPaths.PathIsLive | src/local_flist.c:249-262 | and what stands at the end of a path is a node of the tree |
| RefreshPaths.UnhashedByPath | src/local_flist.c:296-304 | the nodes a pass queues stand at the paths of files without a hash |
| RefreshPaths.PathIsUnhashed | src/local_flist.c:296-304 | and every such path has one |
| RefreshPaths.ScanByPath | src/fs.c:513-600 | a scan shares exactly the files and directories with ordinary names all the way, with size and time of the disk and no hash |
| RefreshPaths.ScanAddsUp | src/fs.c:513-600 | its directories have the sizes of the files in them and the real paths that lead to them |
| RefreshPaths.SpecialNames | src/tth_file.h:4-6 | the names that are left out: ".", ".." and those that start with ".microdc_tth" |
| RefreshPaths.KnownFile | src/local_flist.c:290-305 | a known file that is still there, as whatever it is now, has size and time of the disk and keeps its hash if neither has changed |
| RefreshPaths.LostDirectory | src/local_flist.c:249-262 | below a directory that is none any more on the disk every file stays as it is |
| Getopt.SwapBlocks | lib/getopt.c:207-213 | two blocks of equal length change places, all else stays |
| Getopt.ShorterBottom | lib/getopt.c:201-217 | swapping the shorter bottom block with the far end leaves a smaller exchange with the same outcome |
| Getopt.ShorterTop | lib/getopt.c:218-234 | the same for a shorter top block |
| Getopt.ExchangeBlocks | lib/getopt.c:171-236 | two adjacent blocks of any lengths change places, nothing outside moves |
| Getopt.Exchange | lib/getopt.c:171-248 | the skipped non-options end up behind the options and the two indices delimit them |
| Getopt.SkipNonOptions | lib/getopt.c:406-438 | options found so far in front, skipped non-options behind them, the rest untouched |
| Getopt.FinishScan | lib/getopt.c:440-466 | at "--" or the end the arguments are in final order and optind marks the boundary |
| Getopt.ShortOption | lib/getopt.c:1063-1133 | one option character: the right result and argument, and the scan goes on where it should |
| Getopt.GetoptInternalR | lib/getopt.c:373-1135 | every call keeps: results so far and what is left make up the command line |
| Getopt.RunGetopt | lib/getopt.c:285-371 | the whole run delivers exactly the results of the command line and ends with options, non-options and rest in order |
| Getopt.ParseMerges | lib/getopt.c:285-371 | options with arguments and "--" keep their order, so do the non-options, and the rest follows unchanged |
| Getopt.RunIsPermutation | lib/getopt.c:162-170 | the final arguments are a permutation of the original ones |
| GetoptEvents.KindIs | lib/getopt.c:776-1125 | for any option string made of characters with no, one or two colons: what each character takes |
| GetoptEvents.KindUnknown | lib/getopt.c:776-783 | any other character is unknown |
| GetoptEvents.WordsParse | lib/getopt.c:776-1133 | results written as bundles of plain options, arguments in the same or the next element, or non-options in between, are what is delivered first, whatever follows |
| GetoptEvents.MissingAtEnd | lib/getopt.c:1098-1125 | an argument missing at the end gives ':' or '?' |
| GetoptEvents.AnyResults | lib/getopt.c:285-371 | any list of plain options and options with arguments can be written so |
| GetoptEvents.LineParses | lib/getopt.c:440-466 | a whole line with or without a "--": its results, options, others and rest |
| GetoptEvents.RunWritten | lib/getopt.c:285-371 | the run on such a line delivers exactly the written results and sorts the arguments |
| GetoptEvents.RunMissing | lib/getopt.c:1098-1125 | the same when the last argument is missing |
| Fnmatch.StarNext | lib/fnmatch_loop.c:95-125 | a run of stars and question marks may be absorbed one by one |
| Fnmatch.StarTries | lib/fnmatch_loop.c:181-194 | a star matches if the rest matches here or the star matches one character later |
| Fnmatch.Match | lib/fnmatch_loop.c:42-954 | the loop accepts exactly what the notation and the leading-period rule accept |
| Fnmatch.MatchStar | lib/fnmatch_loop.c:81-198 | the star case: absorbing wildcards and backtracking lose no match |
| Fnmatch.TryAll | lib/fnmatch_loop.c:181-198 | trying only positions with the right first character is complete |
| Fnmatch.FnmatchPeriod | lib/fnmatch.c:441-442 | fnmatch with FNM_PERIOD matches if and only if the pattern describes the name and, when that starts with a period, starts with a period or an escaped one |
| Fnmatch.TrailingEscapeNeverMatches | lib/fnmatch_loop.c:68-75 | a pattern that ends in a lone backslash matches nothing |
| Fnmatch.OneCharacter | lib/fnmatch_loop.c:42-80 | the patterns of one character: '?' describes any one character, '*' anything, a character or an escaped one itself, a lone backslash nothing |
| Fnmatch.TwoPatterns | lib/fnmatch_loop.c:42-198 | one pattern behind another describes exactly what is made of a part for each |
| Human.DivideStep | lib/human.c:298-309 | dividing by an even base keeps amt, tenths and rounding an exact classification of the quotient |
| Human.ClassOfSum | lib/human.c:301-306 | half of the base decides the new rounding class, because the base is even |
| Human.WrappedExactly | lib/human.c:223-232 | the 64-bit digits are an exact classification of the quotient if and only if no product wraps |
| Human.Divide | lib/human.c:223-232 | the divisor path computes these digits |
| Human.RoundedIs | lib/human.c:141-143 | the rounded number is the only one that the relation of rounding describes |
| Human.RoundedInNumbers | lib/human.c:141-143 | ceiling, floor and nearest as inequalities, and the even one of two nearest |
| Human.LargeQuotientFits | lib/human.c:223-232 | from ten units on nothing wraps |
| Human.NearestDecides | lib/human.c:223-232 | rounding to nearest goes wrong if and only if ten times the remainder exceeds 64 bits and it should be rounded up |
| Human.CeilingDecides | lib/human.c:223-232 | the ceiling goes wrong if and only if the divisor is above 2^63 and the remainder is a multiple of 2^62 other than 0 |
| Human.RoundsRightExactly | lib/human.c:223-232 | for each style, the quotient is rounded correctly if and only if remainder and divisor satisfy that condition |
| Human.DivisionCanWrap | lib/human.c:225-226 | a concrete number for which 0 is printed although 1 is nearer |
| Human.CeilingCanFail | lib/human.c:225-226 | a concrete number for which 0 is printed as the ceiling of a positive quotient |
| Human.WrappingCanBeHarmless | lib/human.c:225-226 | a concrete number whose digits are wrong and which is printed rightly in every style |
| Human.OverflowDetected | lib/human.c:213-215 | the division after the multiplication detects every overflow and nothing else |
| Human.Convert | lib/human.c:209-232 | takes the integer path exactly when it applies |
| Human.Scale | lib/human.c:292-309 | the scaling loop keeps the classification and stops below the base or at the last unit, with at least one unit left |
| Human.RoundsTenths | lib/human.c:311-325 | the first increment rounds at the tenths: ceiling, floor, or nearest with ties to even |
| Human.RoundsUnits | lib/human.c:339-343 | the second increment rounds at the units in the same three ways |
| Human.Carry | lib/human.c:345-356 | base units carried to one unit of the next size are still correctly rounded |
| Human.RoundScaled | lib/human.c:311-335 | below ten units: one decimal exactly when the number rounded to tenths is below ten and does not end in a suppressed zero |
| Human.RoundWhole | lib/human.c:339-357 | otherwise whole units, correctly rounded, with the carry; the unit is the smallest in which the rounded number is below the base |
| Human.WriteDigits | lib/human.c:361-366 | the digits written backwards are the decimal number and nothing else changes |
| Human.Choose | lib/human.c:287-357 | what is shown and in which unit, for exact digits and for others |
| Human.DisplayIsFaithful | lib/human.c:141-143 | what should be displayed is the quotient rounded at its last digit |
| Human.DisplayIsPrinted | lib/human.c:311-343 | what should be displayed is close to the exact number in tenths in a larger unit below ten, and in units otherwise |
| Human.PrintedInNumbers | lib/human.c:311-343 | in inequalities: less than one tenth, or one unit, off, on the side the style says; a decimal exactly in a larger unit below ten, unless it is a suppressed zero or the number was rounded up to ten |
| Human.UnitInNumbers | lib/human.c:292-309 | each unit is base times the one before |
| Human.ProperInNumbers | lib/human.c:292-309 | the unit is the smallest with a rounded number below the base, or the eighth |
| Human.InexactDisplay | lib/human.c:223-232 | digits that are not exact are below ten, and what is printed for them is right if and only if remainder and divisor satisfy the same condition |
| Human.Show | lib/human.c:167-357 | the number and unit to print, right if and only if remainder and divisor satisfy that condition |
| Human.HumanReadable | lib/human.c:167-367 | the bytes in front of the suffix are the decimal digits, with 46 and one digit or without; they are the number that should be displayed if and only if remainder and divisor satisfy that condition, and then as close to the exact number as stated; the unit is always the smallest in which the rounded number is below the base; the integer path is taken exactly for whole factors that fit 64 bits |
| HubStream.CutInParts | src/hub.c:1007-1018 | cutting a stream may stop anywhere and go on with the unfinished piece |
| HubStream.PiecesOfStream | src/hub.c:1007-1018 | commands, each with a 124 behind it, and the unfinished piece are the stream, and none holds a 124 |
| HubStream.OnlyPieces | src/hub.c:1007-1018 | there are no other such pieces |
| HubStream.Hub.CutQueue | src/hub.c:1007-1018 | dispatches the complete commands in the queue and finds the start of the unfinished one |
| HubStream.Hub.InputAvailable | src/hub.c:993-1026 | after a read of any size everything received so far was cut at its bars, the tail is kept and hub_recvq_last is its length |
| HubStream.Receive | src/hub.c:993-1026 | for every division of a stream into reads the commands are the pieces of the whole stream |
| Messages.EscapeMessage | src/connection.c:131-155 | the escaped text |
| Messages.UnescapeMessage | src/connection.c:97-125 | the unescaped text, never longer than the input |
| Messages.UnescapeOfEscape | src/connection.c:97-155 | unescaping undoes escaping for every text |
| Messages.EscapedIsSafe | src/connection.c:131-155 | an escaped text has neither dollar nor bar |
| Messages.EscapedInBytes | src/connection.c:131-155 | "&#36;", "&amp;" and "&#124;" for dollar, ampersand and bar, every other byte as it is |
| Messages.UnescapedInBytes | src/connection.c:97-125 | in any text each of these three gives its character, and anything else stays |
| Messages.ChatLineInBytes | src/command.c:880-880 | the nick in angle brackets, the separator, the escaped text |
| Messages.ChatLineIsOneCommand | src/command.c:880-880 | a chat line is received as exactly one command if and only if the nick has no bar |
| Lock.KeyIsInjective | src/connection.c:48-54 | different locks have different keys |
| Lock.KeyIsOnto | src/connection.c:48-54 | every byte string of at least three bytes is the key of some lock |
| Lock.SwapXor | src/connection.c:48-54 | exchanging nibbles commutes with exclusive or |
| Lock.SwapMovesDigits | src/connection.c:48-54 | exchanging nibbles moves every binary digit by four places |
| Lock.KeyDigits | src/connection.c:50-53 | each key byte has the digits in which two neighbours of the lock differ, moved by four places |
| Lock.FirstKeyDigits | src/connection.c:48-54 | the first one has those that the first and the last two lock bytes and the base key have an odd number of times |
| Lock.FillKey | src/connection.c:48-54 | the in-place loop computes the key; its first byte combines the first and the last two lock bytes |
| Lock.MeasureKey | src/connection.c:56-71 | the sizing pass counts the bytes of the escaped key and its NUL |
| Lock.EscapedKeyIsSafe | src/connection.c:75-91 | the escaped key contains none of the bytes 0, 5, 36, 96, 124 and 126 |
| Lock.EscapedKeyInBytes | src/connection.c:75-91 | the bytes 0, 5, 36, 96, 124 and 126 are written "/%DCN", three decimal digits, "%/", every other byte as it is, in order |
| Lock.WriteKey | src/connection.c:73-94 | the writing pass fills the buffer of the measured size exactly |
| Lock.DecodeLock | src/connection.c:35-95 | the answer for any lock; locks shorter than three bytes give the empty string |
| Unqueue.RemoveQueuedByRange | src/command.c:1484-1497 | clears exactly the slots of the range |
| Unqueue.CompactQueue | src/command.c:1499-1524 | in place, what is left moves to the front in its order and cur is its number |
| Unqueue.LeftAt | src/command.c:1585-1589 | the number of entries left in front of an entry is its new position |
| Unqueue.KeptInOrder | src/command.c:1499-1524 | compaction keeps exactly the entries that are not empty, in their order |
| Unqueue.LeftBehind | src/command.c:1484-1524 | what is left of a queue: exactly the entries that no range reaches, in order |
| Unqueue.RankIs | src/command.c:1570-1592 | the new position has the entries left in front of it, and names its entry if that is left |
| Unqueue.UpdatePosition | src/command.c:1570-1592 | the position becomes the rank of the old one, and is marked invalid exactly if its entry was removed |
| Unqueue.CmdUnqueue | src/command.c:1554-1595 | after the command the queue holds exactly the entries that no range reaches, in order; the position counts those in front of it, still names its entry if that is left, and is marked invalid otherwise |

## Left out

- HuffmanMerge.TreeForIsOptimal: optimality is for texts below 2^31 bytes; above it fails, as `HuffmanLarge.LargeTextsLoseOptimality` shows.
- HuffmanEncode.Encode: what happens to a text that is not encodable is not described, since the program shifts a 32-bit word by more than its width or writes behind its buffer.
- HuffmanRoundTrip.CodecRoundTrip: files of 2^32 bits and more, whose bit positions wrap in the decoder.
- HuffmanRoundTrip.EncodeThenDecode: texts that are not encodable, and files of 2^32 bits and more, whose bit positions wrap in the decoder.
- HuffmanDecode.Decode: reading a bit at or behind the end of the data is an outcome of its own, since C leaves the value open; the release of nodes and the warning text are not modelled.
- FileListFile.WriteFilelist: trees with a text the codec cannot store.
- FileListFile.WriteThenOpen: the same.
- FileListFile.OpenFilelist: nothing is said where the codec reads a bit behind the contents.
- FileListUnpack.DataToFilelist: takes the bytes of some traversal, as the source demands complete and valid data; the NULL list is not modelled.
- DcLstParse.ParseDecodedDclst: text lengths are unbounded, while the program counts positions in 32 bits.
- RefreshNodes.LookupFilelistChanges: the snapshot is one in which every entry can be read.
- RefreshNodes.LookupRootChanges: the snapshot of a share whose directory is gone is an empty directory.
- RefreshNodes.PassQueueHolds: a node that was freed never shares its address with a new one.
- Human.HumanReadable: the floating-point path, locale grouping and decimal point, and the unit suffix are not modelled.
- Getopt.ShortOption: the branch for a "W" followed by a semicolon in the option string.
- Getopt.GetoptInternalR: option strings with "W;" or a leading '+' or '-', long options and error messages; calls after the result -1.
- Getopt.RunGetopt: the same.
- Fnmatch.Match: patterns with an unescaped bracket.
- Fnmatch.MatchStar: the same.
- Fnmatch.TryAll: the same.
- Fnmatch.FnmatchPeriod: patterns with bracket expressions or extended patterns; FNM_FILE_NAME, case folding and wide characters.
- Directory sizes are unbounded numbers, where the program adds 64-bit numbers; only the subtraction for a removed child wraps in the model, and that value is overwritten.
- Modification times are 64-bit patterns; the memory layout of the binary form is the one of a little-endian machine with 8-byte time and size types.
- Character set conversion between hub, main and file system names is the identity.
- Hash maps are finite maps whose iterators may deliver in any order; their buckets are not modelled.
- Sockets, pipes, files and processes: reads deliver arbitrary data, the file system is an immutable snapshot.
- A hub disconnect in the middle of the framing loop, and what a dispatched command does.
- The XML and bzip2 lists, the hash computation, and hash text with other than 39 bytes.
- Parsing of range expressions for unqueue: the ranges arrive as numbers inside the queue, as the check in front of the removal ensures.
- Remote wildcard expansion.
- User records and their reference counts, name lookups and search.
