# Palette-parity steganography, modelled in Dafny

The model covers the core of Color-Distance-Stego. The program hides a file in an
8-bit palette bitmap. Each payload bit rewrites one pixel's palette index, in pixel
order, to the nearest palette entry whose parity `(R + G + B) mod 2` is that bit.
The payload is framed first: 32 bits of the byte count, least significant first,
then every byte, most significant bit first. Extraction reads the parities back,
rebuilds the length, and packs the payload bits into bytes.

The model has six modules:

- `Colors`: palette entries, parity, squared colour distance.
- `SortedList` (setLinkedListImp.c): the ordered list of (distance, index) nodes.
  It is a class `DistanceSet` whose `nodes` field is the chain from `start` to
  `end`, plus `end` itself. `setNew`, `setInsertElementSorted` and
  `setColorDistance` are its constructor and methods.
- `Framing` (`convertToBinary`): the framed bit stream `Frame`, and the method
  `ConvertToBinary` that fills an array with it.
- `Embedding` (`hideMessage`): the distance ranking `Ranking`, the scan `Choose`,
  the cache-free result `Embedded`, and the method `HideMessage`. That method keeps
  the 256 x 2 cache and updates the pixel array in place.
- `Extraction` (`extractPayload`): the value it recovers, `Extracted`, and the
  method `ExtractPayload` with its reading, length and packing loops.
- `RoundTrip`: what hiding then extracting gives back, with the program's bit
  counts and with corrected ones.

Distances are integer squared distances. The source takes `sqrt` of the same sum.
The root is monotone, so the order and every tie are the same.

Where the design description and the code disagree, the model follows the code:

- Ties in the ranking. The description says the earlier index wins. The walk
  stops at the first node whose distance is `>=` the new one, so the node inserted
  last goes first among equals. Equal distances are therefore ordered highest
  index first (`SortedList.InsertNewestFirst`, `Embedding.RankingOrdered`).
- The zero-distortion case. The description says the pixel's own index wins when
  its parity already matches. Because of the tie order, the choice keeps the
  pixel's colour but can move to a higher index with the same colour
  (`Embedding.ChooseKeepsMatchingColour`).
- The length field. The description reads it as an unsigned 32-bit value. The code
  ORs the bits into a C `int`, so bit 31 is a sign bit.
- The bit count and the last byte. The description frames and unframes all
  8n + 32 bits and every byte. The code hands 8n bits to the embedder and never
  packs the last byte (see Findings).

## Model

| member | source | states |
|---|---|---|
| Colors.Parity | bitmap.c:272-273 | the bit an entry carries is 0 or 1 |
| Colors.SqDist | bitmap.c:246-256 | the distance is non-negative, and zero exactly when the two colours are equal |
| SortedList.InsertPosSpec | setLinkedListImp.c:54-59 | the walk passes only nodes strictly nearer than the new distance and stops at the first node whose distance is at least it |
| SortedList.InsertSorted | setLinkedListImp.c:60-67 | linking a node in makes the list exactly one node longer |
| SortedList.InsertAddsOne | setLinkedListImp.c:60-67 | insertion adds exactly the new node and loses none (multiset) |
| SortedList.InsertSortedAt | setLinkedListImp.c:60-67 | nodes before the stop position are unchanged, the new node is at that position, and later nodes move up by one |
| SortedList.InsertPlacement | setLinkedListImp.c:54-67 | the new node sits right before the first old node at least as far; every earlier node is strictly nearer; removing it gives back the old list in its order |
| SortedList.InsertKeepsSorted | setLinkedListImp.c:54-67 | a list sorted by distance stays sorted after an insertion |
| SortedList.InsertNewestFirst | setLinkedListImp.c:56 | when the new index exceeds every index present, the list stays ranked by distance with equal distances highest index first |
| SortedList.DistanceSet.constructor | setLinkedListImp.c:17-25 | a new set is empty and `end` is NULL |
| SortedList.DistanceSet.InsertElementSorted | setLinkedListImp.c:39-74 | the list becomes the sorted insertion of (distance, index); `end` still designates the last node; the result is the inserted index |
| SortedList.DistanceSet.ColorDistance | setLinkedListImp.c:92-104 | pIndex[i] is the index of the i-th node for the first min(length, 256) nodes; every other cell is unchanged |
| Framing.ToBitsLsbAt | bitmap.c:334-343 | cell k of the length expansion is bit k of the number |
| Framing.ToBitsMsbAt | bitmap.c:362-367 | cell m of a byte's expansion is bit 7 - m of the byte |
| Framing.LsbRoundTrip | bitmap.c:497-501 | reading a least-significant-first expansion back gives the number, for numbers below 2^w |
| Framing.MsbRoundTrip | bitmap.c:560-565 | reading a most-significant-first expansion back gives the number, for numbers below 2^w |
| Framing.LsbBound | bitmap.c:497-501 | a number read from w bits lies in [0, 2^w) |
| Framing.MsbBound | bitmap.c:560-565 | a byte packed from w bits lies in [0, 2^w) |
| Framing.LsbAppend | bitmap.c:499 | ORing bit i in at position i adds bit * 2^i |
| Framing.Expand | bitmap.c:362-367 | the byte expansion has eight cells per byte |
| Framing.ExpandAt | bitmap.c:362-367 | cell 8i + m of the expansion is cell m of byte i's bits |
| Framing.Frame | bitmap.c:316-367 | the framed stream has 32 + 8n cells, each 0 or 1 |
| Framing.FrameLengthBit | bitmap.c:334-343 | cell k < 32 of the stream is bit k of the byte count, least significant first |
| Framing.FrameByteBit | bitmap.c:362-367 | cell 32 + 8i + m is `(input[i] >> (7 - m)) & 1` |
| Framing.FrameByteSlice | bitmap.c:362-367 | the eight cells of byte i are that byte's bits, most significant first |
| Framing.FramedCellsAreBits | bitmap.c:336-339 | every framed cell is 0 or 1 |
| Framing.WriteLength | bitmap.c:334-343 | the 32-fold rewritten loop leaves cells 0..31 holding the length bits and touches nothing after them |
| Framing.WriteByte | bitmap.c:363-366 | cells at..at+7 get the byte's bits, most significant first; the other cells are unchanged |
| Framing.ConvertToBinary | bitmap.c:304-375 | the buffer is exactly the framed stream, and the reported size is 8n, which excludes the 32 length cells |
| Embedding.Ranking | bitmap.c:240-264 | after k insertions the ranking has k nodes |
| Embedding.RankingOrdered | bitmap.c:240-264 | the ranking is strictly ordered: nearer first, equal distances highest index first |
| Embedding.RankingNodes | bitmap.c:240-264 | each node carries an inserted index and that entry's true distance to the pixel's colour |
| Embedding.RankingComplete | bitmap.c:240-264 | every inserted palette index has its node in the ranking |
| Embedding.RankingFacts | bitmap.c:240-264 | the three facts above together |
| Embedding.FirstWithParitySpec | bitmap.c:268-286 | the scan passes only entries of the wrong parity and stops on one of the wanted parity, if any |
| Embedding.ScanStops | bitmap.c:268-286 | when some entry carries the bit, the scan stops inside the ranking on an entry carrying it |
| Embedding.Choose | bitmap.c:268-285 | the chosen entry carries the wanted bit |
| Embedding.ChooseIsNearest | bitmap.c:240-286 | no entry of the wanted parity is strictly nearer, and among equally near ones the choice has the highest index |
| Embedding.ChooseCharacterized | bitmap.c:240-286 | an entry is the nearest of the wanted parity (ties to the highest index) if and only if it is the choice |
| Embedding.ChooseKeepsMatchingColour | bitmap.c:268-273 | when the pixel's own colour carries the bit, the choice has that colour and an index at least the pixel's |
| Embedding.Embedded | bitmap.c:228-290 | the image keeps its length, the first msgSize pixels carry the bits, and every later pixel is unchanged |
| Embedding.EmbeddedNearest | bitmap.c:240-286 | every consumed pixel becomes the nearest entry carrying its bit |
| Embedding.RankPalette | bitmap.c:229-264 | a fresh set holding the full ranking of all 256 entries for the pixel's colour |
| Embedding.HideMessage | bitmap.c:189-294 | with the cache in use, the pixel array ends equal to the cache-free embedding of the first msgSize bits; the cache only ever holds the scan's answer; the returned pointer is the cover |
| Extraction.Parities | bitmap.c:490-493 | one cell per pixel read, each 0 or 1 |
| Extraction.ParitiesSlice | bitmap.c:539-542 | a slice of the read parities is the parities of the corresponding pixels |
| Extraction.StoredBits | bitmap.c:495-501 | the 32 length bits form a number in [0, 2^32) |
| Extraction.StoredBitsAt | bitmap.c:495-501 | bit i of the stored length is the parity of pixel i |
| Extraction.Extracted | bitmap.c:476-570 | nothing is recovered exactly when the size is negative; otherwise the result has `size` bytes and the last one is 0 |
| Extraction.ExtractedAt | bitmap.c:555-569 | every byte but the last is packed from its eight payload pixels |
| Extraction.ExtractedAll | bitmap.c:555-570 | the corrected extraction: same error case and length, with every byte packed |
| Extraction.ExtractedAllAt | bitmap.c:555-569 | in the corrected extraction, every byte is packed from its eight payload pixels |
| Extraction.PartialByteStep | bitmap.c:563 | ORing bit j in at position 7 - j extends the partly packed byte by one bit |
| Extraction.ReadParities | bitmap.c:490-493 | the array holds the parities of `count` pixels from `from` on |
| Extraction.DecodeSize | bitmap.c:495-501 | the size is the bits read least significant first, as a C `int` |
| Extraction.OrBits | bitmap.c:560-566 | recover[index] becomes the byte packed from the next eight bits; every other cell is unchanged |
| Extraction.PackBytes | bitmap.c:528-570 | bytes 0..size-2 are packed from their eight bits, most significant first; the last byte keeps its 0 |
| Extraction.PackedAsExtracted | bitmap.c:539-570 | what the packing loop leaves is the value Extracted describes |
| Extraction.ExtractPayload | bitmap.c:476-570 | the method recovers exactly Extracted, including the failure on a negative size |
| RoundTrip.StegoParities | bitmap.c:272-281 | consumed pixels read back as the framed bits |
| RoundTrip.CoverParities | bitmap.c:228-290 | pixels past the consumed ones read back as the cover's parities |
| RoundTrip.LengthReadBack | bitmap.c:334-343 | once its 32 bits are hidden, the length reads back as the byte count |
| RoundTrip.ByteReadBack | bitmap.c:362-367 | once its eight bits are hidden, byte k reads back unchanged |
| RoundTrip.AsWrittenByte | bitmap.c:160 | with the 8n bit count, bytes 0..n-5 come back |
| RoundTrip.AsWrittenTailByte | bitmap.c:160 | with the 8n bit count, bytes n-4..n-2 come from cover pixels the embedder never reached |
| RoundTrip.RoundTripAsWritten | bitmap.c:155-175 | for n >= 4: the length reads back as n, bytes before n-4 come back, the next three are read from the cover, and the last is 0 |
| RoundTrip.TruncatedEmbeddingLosesPayload | bitmap.c:373 | a payload whose byte n-4 differs from what the cover carries there does not come back |
| RoundTrip.UnpackedLastByteLosesPayload | bitmap.c:559 | a payload whose last byte is not 0 does not come back |
| RoundTrip.RoundTripCorrected | bitmap.c:155-175 | hiding all 8n + 32 framed bits and packing every byte gives the payload back exactly |

## Left out

- `main`, `loadBitMap` and `writeFile`: argument handling and file parsing and writing. The palette is a sequence of 256 entries and the pixel data an array of indices.
- The reserved fourth byte of each colour-table entry: it carries nothing.
- File reads in `convertToBinary`: the payload is a byte sequence, and `st_size` is its length.
- Writing the `recovered` file in `extractPayload`: the method returns the recovered bytes instead.
- `srand(76)` in `hideMessage` and `extractPayload`: nothing ever calls `rand` (the random pixel choice is commented out), so pixels are walked in order.
- `sqrt` and `pow`: replaced by the exact integer squared distance, which gives the same order and the same ties. No floating point is modelled.
- `setPrint` and `clearSet`: printing and freeing nodes. Memory is not modelled, so neither is the list leaked on a cache hit, where `setNew` runs before the cache check.
- Allocation failures: `malloc` returning NULL in `setNew`, `setInsertElementSorted` (which returns -1), `convertToBinary` and `extractPayload` exits the process. Only a negative stored size, for which `malloc` certainly fails, is modelled, as `None`. `malloc(0)` for a zero size is assumed to succeed.
- The `cvrSize` parameter of `hideMessage` and `extractPayload`: it is never read. Capacity is a precondition instead (msgSize at most the pixel count, and `PayloadFits` for extraction).
- Embedding.HideMessage: requires every bit it consumes to have a palette entry of that parity. Without one the C scan finds nothing and the outer loop repeats forever.
- Framing.ConvertToBinary: requires 8n < 2^31, because `st_size * 8` is stored in an `int`. Larger payloads overflow in C; that overflow is not modelled.
- Extraction.ExtractPayload: the packed bytes are `int` cells rather than `unsigned char`. Every value written is below 256, so nothing is truncated.
- The `pIndex` initialiser `{-1}` in `hideMessage`: every cell the scan reads is overwritten by `setColorDistance` first, so its initial value is unobservable.
- Framing.ConvertToBinary: the result buffer is `unsigned char` cells holding 0 or 1 (Colors.Byte). The C `char *` cast of the allocation is not modelled.
- Extraction.ReadParities, Extraction.DecodeSize, Extraction.OrBits, Framing.WriteLength, Framing.WriteByte and Embedding.RankPalette: loops of one C function given their own methods. They update the same arrays in the same order.
- `size * 8` in `extractPayload` can overflow an `int` for sizes of 2^28 and more. Here the size is bounded by the pixel count (`PayloadFits`), which is the program's own capacity assumption.

## Findings

| source | as written | input that shows it | evidently intended | confidence | as-written member | corrected member |
|---|---|---|---|---|---|---|
| bitmap.c:373 | `convertToBinary` reports 8n bits, and `hideMessage` hides only that many of the 8n + 32 framed cells, so the last 32 payload bits (bytes n-4..n-1) are never hidden | any payload of n >= 5 bytes whose byte n-4 differs from the byte packed from cover pixels 8n..8n+7 | hide all 8n + 32 framed bits | not executed | RoundTrip.TruncatedEmbeddingLosesPayload | RoundTrip.RoundTripCorrected |
| bitmap.c:559 | packing fires only when `i % 8 == 0 && i != 0`, so it runs size - 1 times and the last byte stays 0 | any payload of n >= 4 bytes whose last byte is not 0 | pack every byte, as the packing loop after the last bit would | not executed | RoundTrip.UnpackedLastByteLosesPayload | Extraction.ExtractedAll |
