# Acute3D viewer core: CTM decoding, LZMA and paged-LOD streaming

This project is a Dafny model of the integer core of the Acute3D web viewer library
(`resource/acute3d/libs/ac3d.js`). It covers three parts, and it proves properties about each one.

- **OpenCTM mesh decoding.** The model covers:
  - the little-endian `CTM.Stream` readers and the file header;
  - the layout of the file body, where every array is a typed-array view over one `ArrayBuffer`;
  - which chunks the RAW, MG1 and MG2 readers read, and in what order;
  - the byte-plane de-interleaving of `CTM.InterleavedStream`;
  - the integer restore passes: `restoreIndices`, `restoreGridIndices`, the grid-cell and residual part of `restoreVertices`, and the zig-zag running sums of `restoreMap`.

  Every restore pass is proved to invert the writer's coding. For `restoreMap` this holds only when each difference lies strictly between -2^30 and 2^30.
- **The LZMA decoder** (`LZMA.*`). The model covers:
  - the output window with its circular buffer and overlapping copies;
  - the range decoder and its adaptive bit models;
  - bit-tree, length and literal coders;
  - the packet loop of `Decoder.decode`, with the state machine, the four rep distances and the position slots;
  - `setDecoderProperties` and `decompress`.

  Each coder is proved against a walk on values (`TreeWalk`, `DirectWalk`, `LenWalk`, `MatchWalk`): the walk says which bits the range decoder yields and how each model adapts to them. The packet loop is specified on values: `PacketIn` decodes one packet from the range coder's registers and the models (the isMatch and isRep bits, the rep choice, the lengths, the slot and its low bits, the literal byte), and `Run` repeats it from `Start`, the decoder after `init`, until outSize bytes are out or a packet stops the loop. `decode` is proved to decode exactly `Run` of its input bytes, to leave the input at the offset where that run ends, and to write the replay of those packets to its output. It returns false exactly when the last packet is a match or rep whose distance is neither the end marker nor a copy from inside the output and the dictionary. `decompress` runs `Run` on the bytes after the five property bytes, and reports that case as its data error.
- **Paged-LOD streaming bookkeeping** (`AC3D.*`). The model covers:
  - the global download tables (`updateDownloads`, `processDownloads`, the worker's `onmessage`, the worker pool);
  - the `Ac3dROOT` phase machine with its download queue and priority order;
  - eviction timing;
  - the `PagedLOD` life cycle: loading, errors and retry, sibling visibility, child requests and expiry;
  - `Node` and its wireframe index expansion;
  - the URL and path string handling.

JavaScript numbers are modelled as exact integers, with ToInt32 and ToUint32 written out wherever `|`, `<<`, `>>`, `~~` or a typed array truncates. Time is an explicit `now` parameter. Doubles appear only as Dafny `real` where a screen-size decision is taken.

Where the code and its documentation differ, the model follows the code. In particular, `launchDownloads` sorts the queue by largest distance first, then by lowest level. `LodQueue.ServedOrderExample` pins down that order.

The `properties.size < 5` guard of `setDecoderProperties` (line 1912) reads a field that `CTM.Stream` does not have. The comparison is therefore never true, and missing property bytes read as 0. `LzmaModel.PropertiesAsWritten` models the guard as written, and the decoder uses it. `LzmaModel.PropertiesAsWrittenAcceptsNoBytes` shows that an empty stream is accepted. `LzmaModel.Properties` is the version with the guard working, and `LzmaModel.PropertiesAccepted` and `LzmaModel.PropertiesRoundTrip` are proved about it.

## Model

| member | source | states |
|---|---|---|
| CtmFormat.ReadFileHeader | resource/acute3d/libs/ac3d.js:614-624 | the header read and the offset after it are those ParseHeader gives for the data at the old offset |
| CtmFormat.HeaderRoundTrip | resource/acute3d/libs/ac3d.js:614-624 | a header a writer emitted reads back field by field, and the stream stops right after it |
| CtmFormat.IntsReadBack | resource/acute3d/libs/ac3d.js:614-622 | each encoded 32-bit field reads back at its own offset |
| CtmFormat.CommentReadBack | resource/acute3d/libs/ac3d.js:623 | the comment reads back after its 32-bit length prefix |
| CtmFormat.BodyTilesBuffer | resource/acute3d/libs/ac3d.js:630-664 | with non-negative counts the body exists, and its typed-array views tile the one buffer in the order indices, vertices, normals, uv maps, attribute maps, each view starting where the one before it ends |
| CtmFormat.NegativeCountFails | resource/acute3d/libs/ac3d.js:630-639 | a negative vertex or triangle count yields no body (the ArrayBuffer of negative length throws) |
| CtmFormat.ReaderFor | resource/acute3d/libs/ac3d.js:596-612 | the RAW, MG1 and MG2 tags select their readers and any other tag selects none |
| CtmFormat.PlanTargetsDistinct | resource/acute3d/libs/ac3d.js:685-915 | no two chunks one reader reads fill the same array |
| CtmFormat.PlanFillsBody | resource/acute3d/libs/ac3d.js:685-915 | every reader fills every array of the body and no array the body lacks; MG2 also fills its grid-index array |
| CtmFormat.PassesOnlyWhenCompressed | resource/acute3d/libs/ac3d.js:739-915 | only MG1 and MG2 run restore passes, and every MG1 and MG2 payload is LZMA-packed |
| CtmFormat.PassesReadFilled | resource/acute3d/libs/ac3d.js:815-915 | every restore pass run after chunk k reads only arrays that chunks 0 to k have filled: restoreVertices its vertices and grid indices, restoreNormals also the indices and vertices |
| CtmFormat.Load | resource/acute3d/libs/ac3d.js:588-594 | a body that cannot be allocated fails with RangeError before any reader is chosen, and an unknown compression tag fails with no reader |
| CtmFormat.LoadReadsWholeBody | resource/acute3d/libs/ac3d.js:588-594 | a header with non-negative counts and a known tag loads, reading one chunk per body array, one per announced uv map and attribute map |
| CtmInterleaved.PlaneBijection | resource/acute3d/libs/ac3d.js:1107-1126 | the buffer offset the k-th plane-stream byte goes to, and its inverse, are bijections of the whole buffer |
| CtmInterleaved.NextOffsetFollowsPlanes | resource/acute3d/libs/ac3d.js:1114-1126 | writeByte's offset update moves from the target of byte k to the target of byte k + 1, including the wrap to the next plane |
| CtmInterleaved.InterleavedStream.constructor | resource/acute3d/libs/ac3d.js:1107-1112 | a new stream views `n` interleaved elements per group over the buffer, starts at offset 3 for little-endian data and 0 otherwise, with nothing written |
| CtmInterleaved.InterleavedStream.WriteByte | resource/acute3d/libs/ac3d.js:1114-1126 | the byte goes to the current offset (ignored outside the buffer), the offset moves as writeByte's update says, and the de-interleaving invariant is kept |
| CtmInterleaved.InterleavedStream.Complete | resource/acute3d/libs/ac3d.js:1114-1126 | once a whole buffer's worth is written, the buffer holds the de-interleaved plane stream |
| CtmInterleaved.DeinterleaveInterleave | resource/acute3d/libs/ac3d.js:1107-1126 | de-interleaving the plane stream a writer emits gives back the native byte layout |
| CtmInterleaved.WrittenWordsReadBack | resource/acute3d/libs/ac3d.js:1107-1126 | the words a writer interleaved read back, once written, as the little-endian 32-bit words of the same buffer, word i at byte 4i |
| CtmInterleaved.WriteAll | resource/acute3d/libs/ac3d.js:1114-1126 | writing a whole plane stream yields its native byte layout |
| CtmRestore.RestoreIndices | resource/acute3d/libs/ac3d.js:917-934 | the stored deltas become the triangle list, in place, equal to RestoredIndices of the stored words |
| CtmRestore.RestoreUndoesDelta | resource/acute3d/libs/ac3d.js:917-934 | restoring the deltas a writer stored gives back the triangle list |
| CtmRestore.DeltaUndoesRestore | resource/acute3d/libs/ac3d.js:917-934 | delta coding a restored list gives back the stored words, so the coding is a bijection |
| CtmRestore.RestoredTriangle | resource/acute3d/libs/ac3d.js:923-933 | each entry of triangle t >= 1 is stated in terms of entries already restored |
| CtmRestore.RestoreGridIndices | resource/acute3d/libs/ac3d.js:936-941 | the grid indices become their running sums modulo 2^32, in place |
| CtmRestore.PrefixSumsAreSums | resource/acute3d/libs/ac3d.js:936-941 | entry i of the running sums is the sum of stored entries 0..i modulo 2^32 |
| CtmRestore.PrefixSumsUndoDifferences | resource/acute3d/libs/ac3d.js:936-941 | running sums undo the writer's differences |
| CtmRestore.DifferencesUndoPrefixSums | resource/acute3d/libs/ac3d.js:936-941 | differences undo running sums: the grid-index coding is a bijection |
| CtmRestore.TruncDiv | resource/acute3d/libs/ac3d.js:953-956 | `~~(a / b)` is the quotient truncated toward zero then taken to 32 bits, and 0 for a zero divisor |
| CtmRestore.GridCellDecomposes | resource/acute3d/libs/ac3d.js:950-956 | a grid index below 2^31 decomposes into a cell inside the grid that maps back to it |
| CtmRestore.GridCellOfIndex | resource/acute3d/libs/ac3d.js:950-956 | a cell inside the grid is recovered from its own grid index |
| CtmRestore.RestoreVertices | resource/acute3d/libs/ac3d.js:943-973 | for every vertex, its grid cell and its x residual chained on the previous vertex of the same cell |
| CtmRestore.RestoreVertex | resource/acute3d/libs/ac3d.js:950-971 | one iteration: the vertex's cell and chained residual from the previous vertex's grid index and residual |
| CtmRestore.ChainUndoesResiduals | resource/acute3d/libs/ac3d.js:958-961 | chaining the stored words gives back the writer's residuals |
| CtmRestore.ChainAccumulates | resource/acute3d/libs/ac3d.js:958-961 | inside a run of one cell the residual accumulates; a new cell restarts it |
| CtmRestore.ZigZagRoundTrip | resource/acute3d/libs/ac3d.js:1035 | zig-zag decoding undoes the coding for values strictly between -2^30 and 2^30 |
| CtmRestore.RestoreMap | resource/acute3d/libs/ac3d.js:1024-1040 | the map is rewritten in place so that every entry is the zig-zag-decoded running sum of its component; a count below 1 changes nothing |
| CtmRestore.RestoreComponent | resource/acute3d/libs/ac3d.js:1030-1038 | the inner loop extends the restored part of the map by one more component |
| CtmRestore.RestoreMapUndoesEncode | resource/acute3d/libs/ac3d.js:1024-1040 | restoring a coded map gives back its values whenever every difference lies strictly between -2^30 and 2^30 |
| CtmRestore.ZeroMapRestoresToZero | resource/acute3d/libs/ac3d.js:1024-1040 | an all-zero map restores to zeros |
| CtmStream.Int32RoundTrip | resource/acute3d/libs/ac3d.js:1141-1146 | the four bytes a writer emits for a 32-bit value read back as that value (and as its unsigned word), wherever they sit |
| CtmStream.StringRoundTrip | resource/acute3d/libs/ac3d.js:1171-1177 | readString returns a string EncodeString wrote and steps over it |
| CtmStream.Subarray | resource/acute3d/libs/ac3d.js:1176 | the view is never longer than the data and is the plain slice when both indices are in range |
| CtmStream.Stream.constructor | resource/acute3d/libs/ac3d.js:1128-1131 | a new stream reads from offset 0 of its data |
| CtmStream.Stream.ReadByte | resource/acute3d/libs/ac3d.js:1137-1139 | the byte at the offset (0 past the end) and the offset advanced by one |
| CtmStream.Stream.ReadInt32 | resource/acute3d/libs/ac3d.js:1141-1146 | the signed little-endian 32-bit value at the offset and the offset advanced by four |
| CtmStream.Stream.ReadString | resource/acute3d/libs/ac3d.js:1171-1177 | the length-prefixed Latin-1 string at the offset and the offset after it, as StringAt defines them |
| CtmStream.Stream.ReadArrayInt32 | resource/acute3d/libs/ac3d.js:1179-1187 | the array holds the successive 32-bit values from the offset, modulo 2^32, and the offset advanced by four per entry |
| LzmaWindow.OutWindow.constructor | resource/acute3d/libs/ac3d.js:1440-1451 | create and setStream: an empty buffer of windowSize bytes attached to the output stream |
| LzmaWindow.OutWindow.Init | resource/acute3d/libs/ac3d.js:1476-1481 | the window holds no output and the stream's written bytes are its base |
| LzmaWindow.OutWindow.Flush | resource/acute3d/libs/ac3d.js:1453-1464 | the bytes put since the last flush reach the stream in order; a full buffer starts over at 0 |
| LzmaWindow.OutWindow.WriteOut | resource/acute3d/libs/ac3d.js:1454-1458 | the loop of flush writes exactly the buffer bytes from streamPos to pos |
| LzmaWindow.OutWindow.PutByte | resource/acute3d/libs/ac3d.js:1499-1504 | the output grows by the byte, the position advances and wraps at windowSize, and the stream stays in step |
| LzmaWindow.OutWindow.GetByte | resource/acute3d/libs/ac3d.js:1506-1512 | within the output and the window, the byte distance + 1 positions from the end of the output |
| LzmaWindow.OutWindow.CopyBlock | resource/acute3d/libs/ac3d.js:1483-1497 | the output grows by the LZ77 copy of len bytes from distance + 1 back, overlapping copies included |
| LzmaWindow.LzCopyRepeats | resource/acute3d/libs/ac3d.js:1483-1497 | an LZ77 copy keeps the earlier output and repeats, byte by byte, what lies distance + 1 back |
| LzmaRange.AdaptKeepsBounds | resource/acute3d/libs/ac3d.js:1554-1576 | adapting keeps the probability within its bounds and moves it up after a 0 and down after a 1 |
| LzmaRange.SplitWidth | resource/acute3d/libs/ac3d.js:1554-1576 | a normalized range leaves both parts of the split at least 2^17 wide |
| LzmaRange.InitBitModels | resource/acute3d/libs/ac3d.js:1578-1582 | the first len probabilities are set to 1024 and nothing else changes |
| LzmaRange.RangeDecoder.Init | resource/acute3d/libs/ac3d.js:1525-1534 | five bytes are consumed, the code is the big-endian value of the last four and the range is 2^32 - 1 |
| LzmaRange.RangeDecoder.DecodeBit | resource/acute3d/libs/ac3d.js:1554-1576 | the bit is 0 exactly when the code lies below the probability's split, the probability adapts to it, and range and code stay normalized |
| LzmaRange.RangeDecoder.DecodeDirectBits | resource/acute3d/libs/ac3d.js:1536-1552 | the result is the value, most significant first, of the n bits DirectWalk takes from the code, and the registers end where DirectWalk leaves them; the value is below 2^n |
| LzmaRange.DirectBitIsUpperHalf | resource/acute3d/libs/ac3d.js:1539-1543 | while the code lies below the range, a direct bit is 1 exactly when the code lies in the upper half of the range |
| LzmaRange.BitTreeDecoder.Decode | resource/acute3d/libs/ac3d.js:1593-1600 | the result is the value, most significant first, of the numBitLevels bits TreeWalk decodes from the root, each with the model of its node; the models and the registers end as the walk leaves them, and the value is below 2^numBitLevels |
| LzmaRange.BitTreeDecoder.ReverseDecode | resource/acute3d/libs/ac3d.js:1602-1611 | the result is the value, least significant first, of the bits of the same TreeWalk, with the models and the registers as the walk leaves them |
| LzmaRange.ReverseDecode2 | resource/acute3d/libs/ac3d.js:1613-1622 | the result is the value, least significant first, of the bits TreeWalk decodes with the tree whose models start after startIndex; the models and the registers end as the walk leaves them |
| LzmaRange.TreeWalkFrame | resource/acute3d/libs/ac3d.js:1613-1622 | a walk down a whole tree adapts only that tree's own models, startIndex + 1 to startIndex + 2^numBitLevels - 1, so trees laid side by side in one array do not disturb each other |
| LzmaRange.LsbIsReversedMsb | resource/acute3d/libs/ac3d.js:1602-1622 | reading bits least significant first equals reading their reversal most significant first |
| LzmaCoders.LenDecoder.constructor | resource/acute3d/libs/ac3d.js:1624-1637 | a length decoder for numPosStates position states whose models are all new |
| LzmaCoders.LenDecoder.Init | resource/acute3d/libs/ac3d.js:1639-1647 | every model of the length decoder is at one half |
| LzmaCoders.LenDecoder.Decode | resource/acute3d/libs/ac3d.js:1649-1657 | the symbol, the registers, the adapted choice models and the adapted models of the chosen tree are those LenWalk gives; the symbol lies between 0 and 271 |
| LzmaCoders.LenTiers | resource/acute3d/libs/ac3d.js:1649-1657 | the symbol is below 8 exactly when the first choice bit is 0, from 8 to 15 exactly when it is 1 and the second is 0, and from 16 to 271 exactly when both are 1 |
| LzmaCoders.UpperTiers | resource/acute3d/libs/ac3d.js:1653-1656 | after a first choice bit of 1, the second choice bit selects the symbols 8 to 15 (0) or 16 to 271 (1) |
| LzmaCoders.Decoder2.DecodeNormal | resource/acute3d/libs/ac3d.js:1667-1675 | the byte is the value, most significant first, of the eight bits TreeWalk decodes down the first tree, with the models and the registers as the walk leaves them |
| LzmaCoders.Decoder2.DecodeWithMatchByte | resource/acute3d/libs/ac3d.js:1677-1694 | the byte, the registers and the models are those MatchWalk gives: the bits are decoded with the match tree of the match byte's bit while they agree with it, and down the first tree after the first disagreement |
| LzmaCoders.MatchWalkAgrees | resource/acute3d/libs/ac3d.js:1677-1694 | a literal whose bits all agree with the match byte never uses the first tree: models 0 to 0xff stay as they were |
| LzmaCoders.LiteralDecoder.constructor | resource/acute3d/libs/ac3d.js:1699-1717 | the coders for numPosBits and numPrevBits, all with new models |
| LzmaCoders.LiteralDecoder.Init | resource/acute3d/libs/ac3d.js:1719-1724 | every model of every literal coder is at one half |
| LzmaCoders.LiteralDecoder.GetDecoder | resource/acute3d/libs/ac3d.js:1726-1729 | one of the decoder's own literal coders, with its full model array |
| LzmaModel.NextState | resource/acute3d/libs/ac3d.js:1830-1866 | the state stays in 0..11 and is below 7 exactly after a literal |
| LzmaModel.StateRemembersLastPackets | resource/acute3d/libs/ac3d.js:1820-1866 | the state is below 7 exactly when the last packet was a literal (or none), and otherwise names the last packet and whether a literal preceded it |
| LzmaModel.LiteralsSettle | resource/acute3d/libs/ac3d.js:1830 | after four or more literals, or when every packet is a literal, the state is 0 |
| LzmaModel.AfterMatch | resource/acute3d/libs/ac3d.js:1861-1863 | a normal match pushes its distance in front and drops rep3 |
| LzmaModel.RepIsMoveToFront | resource/acute3d/libs/ac3d.js:1836-1855 | a rep match moves the chosen distance to the front and keeps the others in order, none lost |
| LzmaModel.MoveToFrontPermutes | resource/acute3d/libs/ac3d.js:1836-1855 | moving a distance to the front keeps the multiset of distances |
| LzmaModel.SlotsTile | resource/acute3d/libs/ac3d.js:1868-1889 | slots from 4 on tile the distances, each covering 2^DirectBits values from where the previous ends, up to slot 61 |
| LzmaModel.SlotBaseTop | resource/acute3d/libs/ac3d.js:1871-1872 | slots 62 and 63 shift into the sign bit, to -2^31 and -2^30 |
| LzmaModel.DistanceInSlot | resource/acute3d/libs/ac3d.js:1868-1886 | a distance lies in its slot's range; only slot 63 with all low bits set is the end marker -1 |
| LzmaModel.PosDecodersFit | resource/acute3d/libs/ac3d.js:1874-1876 | the reverse trees of slots below 14 start at SlotBase(s) - s - 1 and fit in the 114 shared position models |
| LzmaModel.LiteralIndexInRange | resource/acute3d/libs/ac3d.js:1726-1729 | getDecoder always picks one of the 2^(lc + lp) coders |
| LzmaModel.SplitBounds | resource/acute3d/libs/ac3d.js:1916-1922 | every byte splits into lc <= 8 and lp <= 4, and only pb > 4 can fail, exactly for the bytes from 225 on |
| LzmaModel.JoinSplits | resource/acute3d/libs/ac3d.js:1916-1920 | an encoder's byte for valid lc, lp and pb splits back into them |
| LzmaModel.PropertiesAsWritten | resource/acute3d/libs/ac3d.js:1909-1932 | the properties are rejected exactly when the first byte is 225 or more; the size guard never rejects |
| LzmaModel.PropertiesAsWrittenAcceptsNoBytes | resource/acute3d/libs/ac3d.js:1912 | a stream with no property bytes is accepted as lc = lp = pb = 0 with an empty dictionary |
| LzmaModel.PropertiesAccepted | resource/acute3d/libs/ac3d.js:1909-1932 | with a size guard that works, the properties are accepted exactly when five bytes remain and the first is below 225, and are then its split and the little-endian dictionary size |
| LzmaModel.PropertiesRoundTrip | resource/acute3d/libs/ac3d.js:1909-1932 | properties an encoder writes read back, whatever follows them |
| LzmaDecoder.Decoder.constructor | resource/acute3d/libs/ac3d.js:1731-1781 | a decoder for the accepted lc, lp, pb and dictionary size, reading the input stream and writing through a new window to the output stream |
| LzmaDecoder.Decoder.Init | resource/acute3d/libs/ac3d.js:1783-1806 | the window empty, every probability of every coder at one half, and the range decoder primed with five bytes |
| LzmaDecoder.Decoder.LiteralPacket | resource/acute3d/libs/ac3d.js:1820-1830 | the byte appended to the output is the value of the literal coder getDecoder picks for the position and previous byte, decoded with the byte at rep0 as match byte after a match or rep (the literal walk on values); the registers and models end as that walk leaves them |
| LzmaDecoder.LiteralInto | resource/acute3d/libs/ac3d.js:1821-1828 | one literal coder decodes a byte, with the byte at rep0 as match byte when asked (MatchWalk) and down the first tree otherwise (TreeWalk), and the window appends it; only that coder's models change |
| LzmaDecoder.Decoder.RepPacket | resource/acute3d/libs/ac3d.js:1834-1859 | the length, the rep distances and the registers and models are those RepIn gives for the isRepG0, isRep0Long, isRepG1, isRepG2 bits and the rep length decoder; the chosen distance moves to the front; length 1 only for a short rep of rep0, otherwise 2 to 273 |
| LzmaDecoder.Decoder.RepChoice | resource/acute3d/libs/ac3d.js:1836-1855 | the rep taken, short or not, the rep distances after it and the registers and models are those of RepChoiceIn: isRepG0 0 picks rep0 (short when isRep0Long is 0), then isRepG1 and isRepG2 pick rep1, rep2 or rep3, which moves to the front |
| LzmaDecoder.Decoder.MatchPacket | resource/acute3d/libs/ac3d.js:1860-1889 | the length, slot and low bits are those MatchIn decodes with the length decoder, the slot tree of min(len - 2, 3) and the slot's low-bit coders; the distance is Distance(slot, low), with length 2 to 273 and the slot below 64 |
| LzmaDecoder.Decoder.SlotDistance | resource/acute3d/libs/ac3d.js:1868-1889 | the low bits are those LowIn decodes for the slot (none below 4, the position models below 14, direct bits and the alignment tree above), within the slot's range, and the distance is Distance(slot, low) |
| LzmaDecoder.Decoder.PosBits | resource/acute3d/libs/ac3d.js:1874-1876 | the low bits of a slot below 14 are the reverse walk of the position models from SlotBase - slot - 1, below 2^numDirectBits |
| LzmaDecoder.Decoder.AlignedBits | resource/acute3d/libs/ac3d.js:1877-1879 | the low bits of a slot from 14 on are the DirectWalk bits shifted by four plus the reverse walk of the alignment tree, below 2^numDirectBits |
| LzmaDecoder.Decoder.PacketHeader | resource/acute3d/libs/ac3d.js:1820-1866 | the kind, length and rep distances are HeaderIn: isMatch 0 is a literal with the distances kept; otherwise isRep chooses a rep (moved to the front) or a normal match (its distance pushed in front) |
| LzmaDecoder.Decoder.DecodePacket | resource/acute3d/libs/ac3d.js:1817-1899 | the packet is PacketIn of the decoder as it stands: its kind and rep0, whether it goes on, the packet appended and the next state, rep distances and previous byte, or the status it stops with and the registers after the packet's header; PacketFacts says what such a packet means |
| LzmaDecoder.Decoder.PacketFacts | resource/acute3d/libs/ac3d.js:1817-1899 | a packet that goes on is a step of the output ending in the new previous byte, moves the state by its kind and copies only from inside the output and the dictionary; one that stops is a match or rep, at the end marker exactly for -1 and corrupt exactly for CorruptDistance |
| LzmaDecoder.Decoder.TailFacts | resource/acute3d/libs/ac3d.js:1820-1898 | the same facts from the header on, for the literal byte or the copy at rep0 |
| LzmaDecoder.Decoder.HeaderReps | resource/acute3d/libs/ac3d.js:1834-1866 | a normal match pushes its distance in front of the rep distances, and a rep keeps them non-negative |
| LzmaDecoder.Decoder.PacketBytes | resource/acute3d/libs/ac3d.js:1820-1898 | the bytes after a decoded header are PacketTail of that header: a literal always goes on with the coder's byte; a copy goes on exactly when its distance lies inside the output and the dictionary, ends the loop at -1 and is corrupt otherwise, leaving the output as it was |
| LzmaDecoder.Decoder.Advance | resource/acute3d/libs/ac3d.js:1817-1899 | one turn of the loop is PacketIn of the decoder as it stands: the packet goes onto the replay and the loop state moves to the packet's next, or the loop stops at the end marker exactly for distance -1 and as corrupt data exactly for a corrupt distance, with the output as it was |
| LzmaDecoder.Decoder.Packets | resource/acute3d/libs/ac3d.js:1808-1899 | the packets, the end status, the last packet's kind and distance and the range decoder's final registers, with the input offset, are Run from the freshly initialised decoder: at least outSize bytes, or an earlier stop at the end marker or at corrupt data, and false exactly for a corrupt last distance |
| LzmaDecoder.Decoder.FollowsStep | resource/acute3d/libs/ac3d.js:1817-1899 | one more packet keeps the loop invariant: the run so far is the packets taken, then the run from where the loop stands |
| LzmaDecoder.Decoder.FollowsEnd | resource/acute3d/libs/ac3d.js:1817 | once outSize bytes are out the run is exactly the packets taken |
| LzmaDecoder.Decoder.CopyPacket | resource/acute3d/libs/ac3d.js:1880-1898 | the end marker exactly for distance -1; success exactly for a distance inside the output and the dictionary, with the LZ77 copy appended; otherwise the output is unchanged |
| LzmaDecoder.Decoder.Decode | resource/acute3d/libs/ac3d.js:1808-1907 | the packets, how the loop ends and the registers and input offset it leaves are Run from Start, the decoder after init on the input bytes; false exactly when the last packet is a match or rep at a corrupt distance; the end marker exactly for distance -1; on success the output stream receives exactly the replay |
| LzmaDecoder.ReplayPrefix | resource/acute3d/libs/ac3d.js:1817-1899 | the output only grows: the first k packets replay to a prefix of the whole replay |
| LzmaDecoder.ReplaySize | resource/acute3d/libs/ac3d.js:1817-1899 | the replay is as long as the packet sizes add up to |
| LzmaDecoder.SetDecoderProperties | resource/acute3d/libs/ac3d.js:1909-1932 | the result is PropertiesAsWritten of the stream, with one byte consumed on rejection and five on success |
| LzmaDecoder.Decompress | resource/acute3d/libs/ac3d.js:1934-1946 | "Incorrect stream properties" exactly for a first byte of 225 or more; otherwise a decoder with the properties read runs Run on the bytes after them and leaves the input stream at the offset where that run ends, which is where the next chunk is read; "Error in data stream" exactly when its last packet is a match or rep at a corrupt distance, and on success the interleaved stream receives the replay of the packets |
| LodText.SplitPath | resource/acute3d/libs/ac3d.js:2151-2164 | folder and file join back to prefix + path, the file holds no `/`, the folder extends the prefix and ends in `/` when the path has one, and a path without `/` is the file itself |
| LodText.SplitPathPrefix | resource/acute3d/libs/ac3d.js:2476-2484 | splitting onto a longer folder only prepends to the folder part |
| LodText.EscapePlus | resource/acute3d/libs/ac3d.js:2401-2402 | no `+` is left and the string grows by two characters per plus sign |
| LodText.EscapeIdempotent | resource/acute3d/libs/ac3d.js:2401-2402 | escaping twice is escaping once |
| LodText.ChildFolder | resource/acute3d/libs/ac3d.js:2476-2484 | a child's escaped folder is the parent's escaped folder followed by the escaped folder part of its path |
| LodText.RemoveFirstStart | resource/acute3d/libs/ac3d.js:2403-2404 | a name without `_start` is unchanged, and one with it loses exactly one occurrence's length |
| LodText.RemoveStartInverse | resource/acute3d/libs/ac3d.js:2403-2404 | removing the marker from a name with none in its head gives the name without that one occurrence |
| LodText.NodeUrl | resource/acute3d/libs/ac3d.js:2401-2404 | the stored file name holds no `+` |
| LodText.NodeUrlStable | resource/acute3d/libs/ac3d.js:2401-2404 | normalising a stored name without a marker again changes nothing |
| LodQueue.PrecedesMeaning | resource/acute3d/libs/ac3d.js:2263-2278 | the comparator orders by distance descending, then by level ascending |
| LodQueue.PrecedesTotalOrder | resource/acute3d/libs/ac3d.js:2263-2278 | any two requests compare one way or the other, and the order is transitive |
| LodQueue.PriorityOrder | resource/acute3d/libs/ac3d.js:2262-2278 | the stably sorted queue is sorted and a permutation of the queue |
| LodQueue.PriorityOrderMembers | resource/acute3d/libs/ac3d.js:2262-2278 | the served order holds exactly the queued requests |
| LodQueue.ServedLargestDistanceFirst | resource/acute3d/libs/ac3d.js:2262-2278 | distances never increase along the served order, and at equal distance levels never decrease |
| LodQueue.ServedOrderExample | resource/acute3d/libs/ac3d.js:2262-2278 | requests at distances 5, 1 and 3 on one level are served as 5, 3, 1 |
| LodQueue.SortedKeysUnique | resource/acute3d/libs/ac3d.js:2262-2278 | two sorted permutations of a queue agree on every distance and level, position by position |
| LodDownloads.Downloads.constructor | resource/acute3d/libs/ac3d.js:449-493 | empty tables in the image phase, image ids from 0, no free slot counted and every worker idle |
| LodDownloads.Downloads.QueueImage | resource/acute3d/libs/ac3d.js:1269-1281 | the image takes the next id and the first null slot (one fewer free slot), or is appended when there is none |
| LodDownloads.Downloads.QueueGeometry | resource/acute3d/libs/ac3d.js:1267 | the geometry is appended to the geometry queue |
| LodDownloads.Downloads.UpdateDownloads | resource/acute3d/libs/ac3d.js:278-298 | every decoded image is delivered in slot order, its slot emptied and counted free, and ids restart when the table held no image |
| LodDownloads.Downloads.SweepImages | resource/acute3d/libs/ac3d.js:281-293 | the loop delivers each decoded image, empties its slot and counts the occupied slots |
| LodDownloads.SweptFreeSlots | resource/acute3d/libs/ac3d.js:278-298 | sweeping frees exactly the decoded slots |
| LodDownloads.Downloads.SaturatedMeaning | resource/acute3d/libs/ac3d.js:2689 | loadLOD's test that the download tables are full: with freeImages kept in step with the image slots (lines 278-298 and 1269-1281), "more than 50 images and no free slot" means more than 50 images with every slot holding one, or else more than 50 geometries |
| LodDownloads.Downloads.ProcessDownloads | resource/acute3d/libs/ac3d.js:303-371 | the phases alternate; the image phase starts the oldest waiting image whose date is before now (the first among equals) and the geometry phase takes the head of the geometry queue |
| LodDownloads.Downloads.OldestWaiting | resource/acute3d/libs/ac3d.js:306-314 | the index of the oldest waiting image whose date is before now, the first among equals, or none |
| LodDownloads.Downloads.ImageDecoded | resource/acute3d/libs/ac3d.js:320-369 | the slot holding the image id is marked Loaded, with a texture exactly when it decoded; with no such slot nothing changes |
| LodDownloads.Downloads.TakeWorker | resource/acute3d/libs/ac3d.js:485-488 | an idle worker leaves the pool, or none when the pool is empty |
| LodDownloads.Downloads.ReturnWorker | resource/acute3d/libs/ac3d.js:490-493 | the worker goes back to the pool |
| LodWireframe.WireframeIndices | resource/acute3d/libs/ac3d.js:3376-3400 | no line list for no triangles; otherwise a new array of twice the length filled triangle by triangle |
| LodWireframe.TriangleBecomesThreeSegments | resource/acute3d/libs/ac3d.js:3384-3396 | a triangle (a, b, c) becomes the segments a-b, b-c, c-a |
| LodWireframe.SegmentsStayInTriangle | resource/acute3d/libs/ac3d.js:3384-3396 | segment p joins corners p mod 3 and p + 1 mod 3 of triangle p / 3, never two triangles |
| LodWireframe.PartialTriangleUsesVertexZero | resource/acute3d/libs/ac3d.js:3384-3396 | a trailing partial triangle reads past the end, so its missing corners are vertex 0 |
| LodPolicy.Tick | resource/acute3d/libs/ac3d.js:2184-2247 | the cursor returns to Idle exactly from RemoveReady, and each processDownloads below the maximum counts one repetition |
| LodPolicy.Cycle | resource/acute3d/libs/ac3d.js:2184-2247 | from Idle, processDownloads runs MAX_REPEAT_DOWNLOADS times, each tile is visited once, and Idle returns after CycleLength(n) calls and not before |
| LodPolicy.CycleMilestones | resource/acute3d/libs/ac3d.js:2184-2247 | where a cycle stands after the repetitions, after the tile walk and at its end |
| LodPolicy.RepeatPhase | resource/acute3d/libs/ac3d.js:2196-2203 | from the r-th processDownloads, 10 - r more calls reach Updating |
| LodPolicy.UpdatingPhase | resource/acute3d/libs/ac3d.js:2226-2247 | from tile i, n - i calls reach LaunchDownloads without passing Idle |
| LodPolicy.HiddenOnlyWhenCovered | resource/acute3d/libs/ac3d.js:2896-2923 | a sibling in view is hidden exactly when it is too coarse and all its children are loaded |
| LodPolicy.RefinesOnlyWhenCoarse | resource/acute3d/libs/ac3d.js:2902-2911 | children are requested only for a sibling too coarse with children missing |
| LodPolicy.PriorityGrowsWithDiameter | resource/acute3d/libs/ac3d.js:2908-2911 | the priority is never negative once the range is at least one pixel, and grows with the diameter |
| LodPolicy.ExpiryDecides | resource/acute3d/libs/ac3d.js:3177-3190 | a loaded child with no sibling visible, no loaded children and unseen for at least expiry releases its group; one seen more recently does not |
| LodPolicy.LoadingBlocksEviction | resource/acute3d/libs/ac3d.js:3177-3190 | a child whose load is under way always keeps its group |
| LodPolicy.SweepSpacing | resource/acute3d/libs/ac3d.js:2349-2350 | after a pass at t1 the next pass is due only more than 24.2 s later |
| LodTree.Sibling.constructor | resource/acute3d/libs/ac3d.js:3284-3314 | a new node is visible, never seen, with no loaded children and no meshes |
| LodTree.Sibling.SetVisible | resource/acute3d/libs/ac3d.js:3316-3341 | the node's visibility becomes the argument |
| LodTree.Sibling.AddMesh | resource/acute3d/libs/ac3d.js:3368-3374 | one more mesh in the geometry group |
| LodTree.MaxSeen | resource/acute3d/libs/ac3d.js:3022-3036 | the latest lastSeen of the siblings, Never for none |
| LodTree.SumLoadedPositive | resource/acute3d/libs/ac3d.js:3054-3065 | the sum of loaded children is positive exactly when some sibling has one |
| LodTree.LaunchCounts | resource/acute3d/libs/ac3d.js:2743-2753 | the loop never withdraws a request, requests every child exactly when the budget covers the pending ones, and leaves the rest pending otherwise |
| LodTree.LaunchInOrder | resource/acute3d/libs/ac3d.js:2743-2753 | the children requested are the first pending ones |
| LodTree.SweepLaunch | resource/acute3d/libs/ac3d.js:2743-2753 | the loop sets the flags Launch gives, succeeds exactly when the budget covers the pending children, and leaves the budget minus its loads |
| LodTree.LoadNext | resource/acute3d/libs/ac3d.js:2746-2751 | child i is loaded when it is not requested and every earlier load started; the other children are unchanged |
| LodTree.LoadChildren | resource/acute3d/libs/ac3d.js:2746-2751 | the flags, the outcome and the idle workers end as Sweep says |
| LodTree.PagedLOD.constructor | resource/acute3d/libs/ac3d.js:2378-2418 | the names are escaped and the file name loses its first `_start`; nothing is loaded or requested |
| LodTree.PagedLOD.LoadingFinished | resource/acute3d/libs/ac3d.js:2560-2582 | after an error the error time is recorded; otherwise the tile is loaded and counted by its parent sibling, or shown by the root on the first level |
| LodTree.PagedLOD.ErrorLoadedNode | resource/acute3d/libs/ac3d.js:2542-2548 | the error time is recorded |
| LodTree.PagedLOD.UnblockNodeForLoading | resource/acute3d/libs/ac3d.js:2553-2558 | the tile is neither loaded, requested nor failed, and its error time is cleared |
| LodTree.PagedLOD.RetryAfterError | resource/acute3d/libs/ac3d.js:2963-2970 | a failed tile is unblocked once more than WAIT_AFTER_ERROR has passed since its failure, and not before |
| LodTree.PagedLOD.SetFilesToLoad | resource/acute3d/libs/ac3d.js:2511-2516 | the file counters are reset and the load finishes at once exactly when no file is announced |
| LodTree.PagedLOD.OnLoadingError | resource/acute3d/libs/ac3d.js:2523-2536 | the tile is marked failed; an error with no place or with the place "worker" finishes the load at once, any other place counts as one more file handled and finishes the load when all are |
| LodTree.PagedLOD.AddTexture | resource/acute3d/libs/ac3d.js:2597-2635 | a texture with an image is one more material and one more file handled; one without an image is a loading error |
| LodTree.PagedLOD.AddGeometry | resource/acute3d/libs/ac3d.js:2637-2678 | the mesh goes to the first sibling with the name, and one more file is handled, which may finish the load |
| LodTree.PagedLOD.LoadLOD | resource/acute3d/libs/ac3d.js:2683-2710 | a requested tile counts as launched; otherwise the load starts unless the tables are full or no worker is idle, and a started load takes a worker |
| LodTree.PagedLOD.LoadSiblingChildren | resource/acute3d/libs/ac3d.js:2743-2753 | each not-yet-requested child is loaded in order until one is refused; the result tells whether every child is now requested |
| LodTree.PagedLOD.AddSiblingDownloadQueue | resource/acute3d/libs/ac3d.js:2713-2738 | the sibling is queued with its distance exactly when one of its children is not yet requested |
| LodTree.PagedLOD.UpdateSibling | resource/acute3d/libs/ac3d.js:2868-2922 | the sibling's visibility, ancestor flag, lastSeen and queueing follow the frustum test and the screen-size decision |
| LodTree.PagedLOD.DeleteData | resource/acute3d/libs/ac3d.js:3122-3157 | the tile forgets its siblings, children and materials and is neither loaded nor requested |
| LodTree.PagedLOD.RemoveSiblingExpiredChildren | resource/acute3d/libs/ac3d.js:3166-3223 | the children are released exactly when none keeps the group alive and the sibling does not need them at its screen size; then the loaded ones are cleared and the sibling counts no loaded child |
| LodTree.PagedLOD.ShowSiblings | resource/acute3d/libs/ac3d.js:2584-2595 | setVisible(true) shows every sibling |
| LodTree.PagedLOD.HideSiblings | resource/acute3d/libs/ac3d.js:2584-2595 | setVisible(false) hides every sibling, records the time for a visible one and copies the parent's ancestor flag |
| LodTree.Root.constructor | resource/acute3d/libs/ac3d.js:1966-2024 | the root starts Idle with an empty queue, workers on, and the next eviction pass held off until now + 200 |
| LodTree.Root.AddToDownloadQueue | resource/acute3d/libs/ac3d.js:2251-2253 | the request is appended to the queue |
| LodTree.Root.LaunchDownloads | resource/acute3d/libs/ac3d.js:2257-2299 | the requests served are a prefix of the priority order, all of them when every launch succeeded; every loadSiblingChildren call but the last returned true, and the last returned false unless all launched; a call returned true exactly when all that request's children are requested; a child of no served request keeps its flag; the queue ends empty and the phase becomes RemoveReady |
| LodTree.ServeSorted | resource/acute3d/libs/ac3d.js:2261-2292 | the sorted queue is served as ServeAll says, stated for the queue before sorting |
| LodTree.ServeAll | resource/acute3d/libs/ac3d.js:2277-2292 | the served requests are a prefix of the queue and their outcomes all true but the last; each outcome tells whether its request's children are all requested; no flag is withdrawn; a child of no served request keeps its flag |
| LodTree.ServeLoop | resource/acute3d/libs/ac3d.js:2277-2292 | the while loop carries Serving from the whole queue to none of it |
| LodTree.ServeInTurn | resource/acute3d/libs/ac3d.js:2278-2291 | one turn of the loop: the request at the front is served only while every earlier one launched all its children, and Serving is kept |
| LodTree.ServeNext | resource/acute3d/libs/ac3d.js:2288-2290 | serving one request keeps the outcomes of the earlier ones true to their children's flags, withdraws no flag and touches no child outside its own group |
| LodTree.ServeRequest | resource/acute3d/libs/ac3d.js:2743-2753 | loadSiblingChildren withdraws no request, changes no child outside the group, and returns true exactly when all the group's children are requested |
| LodTree.RequestedStays | resource/acute3d/libs/ac3d.js:2277-2292 | a request whose children were all requested stays so while no flag goes from true to false |
| LodTree.LaunchKeeps | resource/acute3d/libs/ac3d.js:2743-2753 | a child already requested is still requested after the launch |
| LodTree.LaunchAll | resource/acute3d/libs/ac3d.js:2743-2753 | after the launch every child is requested exactly when the budget covered the pending ones |
| LodTree.AllRequestedMeaning | resource/acute3d/libs/ac3d.js:2743-2753 | the recursive test holds exactly when every child of the group is requested |
| LodTree.Root.UpdatePart | resource/acute3d/libs/ac3d.js:2226-2247 | the cursor moves as Tick says, no request is withdrawn, and each tile of the step ends requested unless the tables are full or no worker is idle |
| LodTree.Root.RemoveExpiredChildren | resource/acute3d/libs/ac3d.js:2338-2370 | outside Idle and RemoveReady nothing changes; otherwise the frame time is now, a pass runs exactly when more than 1.2 expiry periods have passed, the next is then held off until now + 200, and the phase is Idle |
| LodTree.Root.UpdateLODTree | resource/acute3d/libs/ac3d.js:2184-2212 | one step of the phase machine, whose cursor follows Tick |
| LodTree.Root.OnChildLoaded | resource/acute3d/libs/ac3d.js:2166-2182 | the first-level tile is shown at once and one more tile counts as loaded |

## Left out

- Network and file I/O are not modelled: the XHR and JSON loaders, `AC3D.CTMLoader.load`, and worker creation and messaging. A worker's reply is an explicit call to `QueueImage`, `QueueGeometry` and `ReturnWorker`.
- Browser image decoding, textures, THREE.js objects, the renderer and the object pools are not modelled. A texture is a flag, and a mesh is a counter on its node.
- Floating point is not modelled. This covers `readFloat32`, `readArrayFloat32`, vertex coordinates, `restoreNormals`, `calcSmoothNormals`, the MG2 cell sizes and the multiplication by the precision in `restoreVertices` and `restoreMap`. Projected diameters enter as inputs.
- The wall clock is not read: `Date.now()` is an explicit `now` parameter.
- The recursive tree walks are not modelled: the traversal inside `updatePagedLODTree` and `traverseSiblingChildren`, the per-tile `removeExpiredChildren` (lines 3263-3276) and `unload`. The decisions and updates each visit makes are modelled (`UpdateSibling`, `RemoveSiblingExpiredChildren`, `RetryAfterError`).
- `updateSiblingsData` is modelled only in part: the split of child paths (`LodText.SplitPath`, `LodText.ChildFolder`) and the file counters (`SetFilesToLoad`). Siblings and child tiles are not built from the node data.
- `updateLODTree_part` sets `visible` on first-level tiles; that flag, frustum tests, intersection and raycasting, the texture budget (`updateMaxTexture`) and `updateCameraPosition` are not modelled.
- The decode-until-end-marker mode that `decode` enters for a negative `outSize` is not modelled, because CTM always passes the unpacked size. `outSize` is a `nat`, and the end marker is still handled.
- CtmRestore.ZigZagRoundTrip: the round trip is proved for differences strictly between -2^30 and 2^30, because `>>` takes its operand to a signed 32-bit value, so larger magnitudes do not survive the round trip.
- LodTree.PagedLOD.LoadSiblingChildren: the property "ok exactly when every child is now requested" is stated by `LodTree.ServeRequest`, through `LodTree.LaunchAll`, rather than in the method's own contract.
- LodTree.Root.UpdatePart: states that each tile of the step ends requested unless the load was refused, not the full outcome of every `loadLOD`; the `updatePagedLODTree` walk of already-requested tiles is not modelled.
- LodTree.Root.UpdateLODTree: states only the phase cursor. The calls to `updateDownloads` and `processDownloads` at the top of each step are `LodDownloads.Downloads.UpdateDownloads` and `ProcessDownloads`, kept on a separate object.
- LodTree.Root.LaunchDownloads: the source sorts the queue field in place and shifts requests off it. The model sorts into a local sequence and serves that. It clears the field and sets the phase to RemoveReady before the loop rather than after it. Nothing in the loop reads either field, so the outcome is the same. Requests left after the first failed launch are dropped without a call, as the source's shifts without a call do.
- LodTree.Root.LaunchDownloads: the outcome of each call is stated as "all the group's children are requested", not as the per-child flags, which `LoadSiblingChildren` states per request.
- LzmaDecoder.Decoder.Decode: the input is the range coder's byte sequence; the models are tracked as a map from each model array to its contents (`SnapOf`), so the specification on values does not model the arrays' aliasing, which `Valid` rules out.
- CtmFormat.Load: the RAW, MG1 and MG2 readers are modelled as the `Plan` of chunks they read and passes they run. The plan is not executed end to end: reading a chunk, decompressing it into an `InterleavedStream` and running the restore pass on the same array are proved as separate steps (`CtmStream`, `LzmaDecoder.Decompress`, `CtmInterleaved.WriteAll`, `CtmRestore`).
- CtmInterleaved.InterleavedStream: the source writes bytes through a `Uint8Array` over the same `ArrayBuffer` that the restore passes then read as `Uint32Array` words. The model does not alias two views of one buffer. `CtmInterleaved.WrittenWordsReadBack` proves instead that the written bytes read back as the words, on a little-endian host. The restore passes work on arrays of words.
- CtmFormat.FileBody: `new ArrayBuffer` also throws a RangeError when the engine cannot allocate the requested size. Only the negative sizes that the counts can produce are modelled, because engine allocation limits are not part of this code.
- `getLastestSeen`, `getIsSiblingVisible` and `getNumberChildrenLoaded` are modelled as functions: `LodTree.MaxSeen`, `LodTree.AnyVisible` and `LodTree.SumLoaded`.
- The `onerror` handler of `processDownloads` calls `onLoadingError` on the image entry itself (line 367), and that object has no such method. `LodDownloads.Downloads.ImageDecoded` models the handler's slot bookkeeping up to that call, and the call itself is not modelled.
