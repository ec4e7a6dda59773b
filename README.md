# grpcbigbuffer length-header rewriting, modelled in Dafny

grpcbigbuffer streams large protobuf messages as a main fragment plus
separate block files, each block standing in the message as a 36-byte
pointer message. `generate_wbp_file` in
`src/grpcbigbuffer/block_driver.py` joins the fragments into one buffer
that still holds those pointers, while the length headers of the fields
enclosing a block are sized for the full block. The code then shrinks
those headers to fit the pointers:

- it reads a header;
- it computes, for each block, how much larger the block with its length
  header is than the pointer with its own;
- it inverts the metadata (block -> positions) into position -> blocks;
- it lowers each header enclosing blocks by the summed growth of the
  blocks listed under it;
- it rewrites every such header with a splice that may change the
  buffer's length.

This code inserts no block bytes: it only rewrites headers.

`test/analyze_protobuf_data.py` holds a small splitter. It cuts a run of
length-delimited fields into (field number, length, payload, payload
offset) tuples.

The project has five modules:

- `Bytes` (`bytes.dfy`): bytes as integers 0..255, and the powers of 128
  used as group weights. The bit masks of the source become `%` and `/`,
  and `BitFields` shows that, on an 8-bit value, the two agree.
- `Results` (`results.dfy`): the Python exceptions the core can raise,
  as an `Err` value.
- `Varint` (`varint.dfy`): protobuf base-128 varints as values. It holds
  the decoder and encoder specifications, the round trip between them,
  and the source's test examples.
- `BlockDriver` (`block_driver.dfy`): the header reader and splicer.
  These are loops in the source and become methods proved against
  `HeaderAt` and `SpliceVarint`. It also holds the metadata inversion, the
  size differences, and the patch loop `generate_new_buffer`, with what its
  iteration order means.
- `AnalyzeProtobufData` (`analyze_protobuf_data.dfy`): the field splitter
  as a method proved against the specification `Extract`. It carries what
  every result promises about the data, and a round trip from serialized
  fields back to the fields.

Four behaviours of the code matter to its callers:

- The code raises `IndexError` for a header that runs off the buffer; it
  has no separate out-of-range error.
- `recalculate_block_length` can return a negative number, and nothing
  rejects a negative result (`RecalculateCanBeNegative`). Handed on to
  `generate_new_buffer` as a new header value, such a number makes the
  encode loop of `set_varint_value` run forever, because `-1 >> 7` is
  again -1; the model's header values are natural numbers, so this case is
  outside it.
- The splitter in `test/analyze_protobuf_data.py` reads a field's tag as
  one byte. Protobuf writes the tag as a varint, which takes two bytes
  from field number 16 up, so such fields are misread
  (`TwoByteTagMisread`). Its round trip (`ExtractSerialized`) covers field
  numbers below 16.
- `generate_new_buffer` applies the rewrites in the dictionary's order; it
  does not sort them into descending offsets. The model proves that a
  descending order equals a one-pass rebuild of the original layout, and
  shows on a four-byte buffer that an ascending order corrupts the outer
  header.

## Model

| member | source | states |
|---|---|---|
| Bytes.BitFields | src/grpcbigbuffer/block_driver.py:32-33 | On a byte, read as an integer, `& 0x7F` is `% 128`, `& 0x80 == 0` is `< 128`, `>> 3` is `/ 8` and `& 0x07` is `% 8` |
| Varint.Size | src/grpcbigbuffer/block_driver.py:60-65 | The byte count of a complete varint is at least 1 and fits in the data |
| Varint.Decode | src/grpcbigbuffer/block_driver.py:23-37 | The value read from a k-byte varint is below 128^k |
| Varint.EncodeShape | src/grpcbigbuffer/block_driver.py:51-58 | In an encoding, every byte except the last has the continuation bit set and the last has it clear; 0 encodes as the single byte 0x00 |
| Varint.EncodeGroup | src/grpcbigbuffer/block_driver.py:52-57 | One turn of the encoder emits the low 7-bit group, flagged exactly when more groups remain, and the rest strictly shrinks |
| Varint.TerminatorAt | src/grpcbigbuffer/block_driver.py:63-65 | If byte k is the first byte with the high bit clear, the varint is complete and spans k + 1 bytes |
| Varint.NoTerminator | src/grpcbigbuffer/block_driver.py:30-36 | Bytes that all have the high bit set hold no complete varint |
| Varint.GroupSumTail | src/grpcbigbuffer/block_driver.py:32 | A weighted group sum is the first group plus 128 times the weighted sum of the rest |
| Varint.DecodeIsGroupSum | src/grpcbigbuffer/block_driver.py:27-37 | The varint's value equals what the shift-and-or loop accumulates up to and including the terminator |
| Varint.EncodeDecode | src/grpcbigbuffer/block_driver.py:51-58 | Whatever follows an encoding, decoding reads back exactly the encoded value and exactly the encoding's bytes |
| Varint.DecodeExtend | src/grpcbigbuffer/block_driver.py:23-37 | Bytes appended after a complete varint change neither its value nor its length |
| Varint.VarintLengthBounds | src/grpcbigbuffer/block_driver.py:20 | The encoded length of n is the fewest 7-bit groups that hold n: n < 128^len, and 128^(len-1) <= n when len > 1 |
| Varint.DecodeExamples | test/block_driver.py:11-33 | b"\x7F" reads 127; b"\xC0\x03" reads 448 at offset 0, and b"\x00\x00\xC0\x03" reads 448 at offset 2 |
| Varint.DecodeMaxExample | test/block_driver.py:23-27 | Nine 0xFF bytes and a final 0x01 read 2^64 - 1 |
| BlockDriver.GetPositionLength | src/grpcbigbuffer/block_driver.py:23-37 | The byte-by-byte loop returns the value of the varint at the position, or IndexError when the buffer ends before a terminator |
| BlockDriver.SetVarintValue | src/grpcbigbuffer/block_driver.py:46-68 | The encode loop and the count loop return the buffer with the old varint replaced by the encoding of the new value, or IndexError when there is no complete varint at the position |
| BlockDriver.SpliceRoundTrip | src/grpcbigbuffer/block_driver.py:46-68 | After a splice, reading the header at the same position yields the new value, and that header is as long as the new value's encoding |
| BlockDriver.SplicePreservesOutside | src/grpcbigbuffer/block_driver.py:67-68 | A splice keeps every byte before the header, shifts every byte after it by the change in header length, and changes the buffer's length by that same amount |
| BlockDriver.SpliceKeepsEarlierHeader | src/grpcbigbuffer/block_driver.py:67-68 | A header that ends before the splice position reads the same after the splice |
| BlockDriver.AllPositions | src/grpcbigbuffer/block_driver.py:15 | A position is in the set exactly when some block lists it |
| BlockDriver.BlocksAt | src/grpcbigbuffer/block_driver.py:14 | A block is in the list for p exactly when that block's entry lists p |
| BlockDriver.TransformDictionaryFormat | src/grpcbigbuffer/block_driver.py:13-15 | The inverted map has exactly the listed positions as keys, and each key maps to exactly the blocks that list it |
| BlockDriver.BlocksAtDistinct | src/grpcbigbuffer/block_driver.py:14 | With distinct block names, the blocks listed under a position are distinct |
| BlockDriver.TransformListsEachBlockOnce | src/grpcbigbuffer/block_driver.py:13-15 | With distinct block names, no block appears twice under one position of the inverted map |
| BlockDriver.GetPrunedBlockLength | src/grpcbigbuffer/block_driver.py:18-20 | The growth is the block with its length header minus the 36-byte pointer with its 1-byte header; it is positive exactly when the block is larger than 36 bytes and zero exactly when it is 36 bytes |
| BlockDriver.SumPrunedConcat | src/grpcbigbuffer/block_driver.py:41-43 | The summed growth of two block lists, joined, is the sum of their summed growths |
| BlockDriver.RecalculateBlockLength | src/grpcbigbuffer/block_driver.py:40-43 | The result is Ok exactly when the header is complete and every block has a size. Then it is the header value minus the summed growth. A missing header is IndexError, checked before the block sizes; a complete header with a block that has no size is BlockFileMissing |
| BlockDriver.RecalculateWithoutBlock | src/grpcbigbuffer/block_driver.py:40-43 | Dropping one block from the list raises the result by exactly that block's growth |
| BlockDriver.RecalculateCanBeNegative | src/grpcbigbuffer/block_driver.py:40-43 | A header of 0 over one 100-byte block recalculates to -64: no error is raised |
| BlockDriver.GenerateNewBuffer | src/grpcbigbuffer/block_driver.py:71-75 | The loop applies set_varint_value to each entry in order, each on the previous result, and stops at the first IndexError |
| BlockDriver.SpliceWithTail | src/grpcbigbuffer/block_driver.py:67-68 | Bytes beyond the buffer a header lies in are carried unchanged through a splice |
| BlockDriver.PatchAllWithTail | src/grpcbigbuffer/block_driver.py:71-75 | Patching headers in descending order in front of any tail leaves the tail untouched after the rebuilt prefix |
| BlockDriver.DescendingPatchesReadOriginal | src/grpcbigbuffer/block_driver.py:71-75 | With headers in strictly descending, non-overlapping order, the patch loop succeeds and equals rewriting every header on the original layout in one pass |
| BlockDriver.SpliceOneByteHeader | src/grpcbigbuffer/block_driver.py:61-68 | Splicing over a one-byte header replaces exactly that byte with the new encoding |
| BlockDriver.PatchedHeaders | src/grpcbigbuffer/block_driver.py:23-37 | Concrete header reads on the two patched buffers of the ordering examples: 712, 200 and 5 |
| BlockDriver.AscendingPatchesCorrupt | src/grpcbigbuffer/block_driver.py:71-75 | In ascending order on [3, 1, 0, 0], growing the header at 0 to 200 moves the inner header, and the second rewrite lands inside the first: the outer header then reads 712 |
| BlockDriver.DescendingPatchesExample | src/grpcbigbuffer/block_driver.py:71-75 | The same two rewrites in descending order leave headers reading 200 and 5 |
| AnalyzeProtobufData.DecodeLength | test/analyze_protobuf_data.py:28-39 | The inner for-else loop succeeds exactly when a complete varint follows the tag. It then returns that varint's value and the index of its last byte; otherwise it returns MalformedVarint |
| AnalyzeProtobufData.ExtractAdvance | test/analyze_protobuf_data.py:41-56 | One turn of the outer loop: the fields so far, then a truncated last field or the next field followed by what the rest of the data yields |
| AnalyzeProtobufData.ExtractProtobufData | test/analyze_protobuf_data.py:15-61 | The loop returns exactly the specification Extract: the fields in order, with stops and errors where the code stops or raises |
| AnalyzeProtobufData.ExtractedCons | test/analyze_protobuf_data.py:49-56 | A complete field that ends where a suffix begins, followed by fields correctly extracted from that suffix, is a correct extraction of the whole |
| AnalyzeProtobufData.ExtractFields | test/analyze_protobuf_data.py:15-61 | Every successful result is well placed: field numbers are below 32, and each complete payload equals the data bytes at its reported offset, at least a tag and a length byte in. Only the last field can be truncated; it then has offset -1 and is the data's remaining bytes. Complete fields come in data order |
| AnalyzeProtobufData.PayloadFields | test/analyze_protobuf_data.py:44-56 | The same guarantee once a field's header is read |
| AnalyzeProtobufData.ExtractFailsOnlyOnMalformedLength | test/analyze_protobuf_data.py:38-39 | The only error extraction can end in is the malformed-varint error |
| AnalyzeProtobufData.Tag | test/analyze_protobuf_data.py:22-24 | For a field number below 16, the tag is a one-byte varint that decodes to wire type 2 and back to its field number |
| AnalyzeProtobufData.ExtractOneSerialized | test/analyze_protobuf_data.py:26-56 | A serialized field (number below 16, so a one-byte tag) ahead of data is found with its number, length, payload and the offset just past its header, followed by what the rest yields |
| AnalyzeProtobufData.ExtractSerialized | test/analyze_protobuf_data.py:15-61 | Round trip: splitting any protobuf run of length-delimited fields numbered below 16, followed by the end or a tag of another wire type, recovers every field in order with its payload offset |
| AnalyzeProtobufData.TwoByteTagMisread | test/analyze_protobuf_data.py:22-24 | The scanner reads the tag as one byte, so field 16 holding "A", written by protobuf as 0x82 0x01 0x01 0x41, comes back with length 1 and payload 0x01 |

## Left out

- `generate_wbp_file`: not modelled. It reads the metadata file, assembles the joined buffer through `read_multiblock_directory` and writes the output file, which is file and directory I/O.
- `os.path.getsize` is not modelled: a block's file size is a parameter, and a missing file is the `BlockFileMissing` error.
- `encode_bytes` lives in another module and is not part of this model. Its length is taken to be the varint length of its argument, which is what `GetPrunedBlockLength` uses.
- `analyze_protobuf_data`, the printing driver of the splitter, and the `__main__` block are not modelled. They do console output only.
- The end-to-end test that builds and rebuilds a multi-block message is not modelled. It needs the message builder and the file system.
- BlockDriver.SetVarintValue: takes a natural number. For a negative value, Python's `>> 7` stays at -1 and the encode loop never ends; that divergence is not modelled.
- BlockDriver.TransformDictionaryFormat: states which positions and blocks appear, but not the order of the blocks in each list. That order is the dictionary's insertion order; the function keeps it, but no contract states it. Python dictionaries are modelled as sequences of entries in insertion order. Distinct keys (`DistinctKeys`), which a Python dictionary always has, are assumed only by `BlocksAtDistinct` and `TransformListsEachBlockOnce`.
- BlockDriver.GenerateNewBuffer: the dictionary's iteration order is the order of the sequence passed in. The hash-set ordering that produces it upstream is not modelled.
- Arbitrary-precision Python integers are Dafny's unbounded integers. The bitwise `|=` that merges 7-bit groups at distinct shifts is modelled as addition, which agrees because the groups do not overlap.
- Python's `bytes` slicing past the end yields an empty result. The model's guards give the same outcome: an `IndexError` or a stop, never a failed slice.
