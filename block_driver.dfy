/** The length-header rewriting of src/grpcbigbuffer/block_driver.py:
    reading and rewriting the varint length header of a length-delimited
    field, inverting the block metadata, the size difference between a block
    and its pointer, and the loop that applies every header rewrite to the
    joined buffer. */
module BlockDriver {
  import opened Bytes
  import opened Varint
  import opened Results

  /** Encoded size of a block pointer, the placeholder a block replaces. */
  const BlockLength: nat := 36

  type BlockName = string

  // ---------------------------------------------------------------------
  // get_position_length

  /** What get_position_length yields: the value of the varint starting at
      pos, or IndexError when the buffer ends before its terminator. */
  function HeaderAt(buffer: seq<Byte>, pos: nat): Result<nat>
  {
    if HasVarintAt(buffer, pos) then Ok(Decode(buffer[pos..])) else Err(IndexError)
  }

  /** Reads the varint at varintPos byte by byte, accumulating the 7-bit
      groups at increasing weights until a byte with the high bit clear. */
  method GetPositionLength(varintPos: nat, buffer: seq<Byte>) returns (r: Result<nat>)
    ensures r == HeaderAt(buffer, varintPos)
  {
    var value: nat := 0;
    var scale: nat := 1;  // 1 << shift
    var index := varintPos;
    ghost var varint := if varintPos <= |buffer| then buffer[varintPos..] else [];
    while true
      invariant varintPos <= index && index - varintPos <= |varint|
      invariant value == GroupSum(varint, index - varintPos)
      invariant scale == Pow128(index - varintPos)
      invariant forall j :: 0 <= j < index - varintPos ==> varint[j] >= 128
      decreases |varint| - (index - varintPos)
    {
      if index >= |buffer| {
        NoTerminator(varint);
        return Err(IndexError);
      }
      var byte := buffer[index];
      assert varint[index - varintPos] == byte;
      value := value + (byte % 128) * scale;
      if byte < 128 {
        TerminatorAt(varint, index - varintPos);
        DecodeIsGroupSum(varint);
        return Ok(value);
      }
      scale := scale * 128;
      index := index + 1;
    }
  }

  // ---------------------------------------------------------------------
  // set_varint_value

  /** What set_varint_value yields: the buffer with the varint at pos
      replaced by the encoding of newValue, or IndexError when there is no
      complete varint at pos. */
  function SpliceVarint(buffer: seq<Byte>, pos: nat, newValue: nat): Result<seq<Byte>>
  {
    if HasVarintAt(buffer, pos)
    then Ok(buffer[..pos] + Encode(newValue) + buffer[pos + Size(buffer[pos..])..])
    else Err(IndexError)
  }

  /** Encodes newValue into 7-bit groups, counts the bytes of the varint
      already at varintPos, and splices the new bytes in place of the old. */
  method SetVarintValue(varintPos: nat, buffer: seq<Byte>, newValue: nat) returns (r: Result<seq<Byte>>)
    ensures r == SpliceVarint(buffer, varintPos, newValue)
  {
    var varintBytes: seq<Byte> := [];
    var rest := newValue;
    while true
      invariant varintBytes + Encode(rest) == Encode(newValue)
      decreases rest
    {
      EncodeGroup(varintBytes, rest, newValue);
      var byte := rest % 128;
      rest := rest / 128;
      varintBytes := varintBytes + [if rest > 0 then byte + 128 else byte];
      if rest == 0 {
        break;
      }
    }

    var original := if varintPos <= |buffer| then buffer[varintPos..] else [];
    var originalLength := 0;
    while true
      invariant forall j :: 0 <= j < originalLength && j < |original| ==> original[j] >= 128
      invariant originalLength <= |original|
      decreases |original| - originalLength
    {
      if originalLength == |original| {
        NoTerminator(original);
        return Err(IndexError);
      }
      if original[originalLength] < 128 {
        break;
      }
      originalLength := originalLength + 1;
    }
    TerminatorAt(original, originalLength);
    originalLength := originalLength + 1;

    r := Ok(buffer[..varintPos] + varintBytes + buffer[varintPos + originalLength..]);
  }

  /** Reading back the header just written yields the new value:
      get_position_length(pos, set_varint_value(pos, buffer, v)) == v. */
  lemma SpliceRoundTrip(buffer: seq<Byte>, pos: nat, newValue: nat)
    requires HasVarintAt(buffer, pos)
    ensures SpliceVarint(buffer, pos, newValue).Ok?
    ensures HeaderAt(SpliceVarint(buffer, pos, newValue).value, pos) == Ok(newValue)
    ensures Size(SpliceVarint(buffer, pos, newValue).value[pos..]) == VarintLength(newValue)
  {
    var tail := buffer[pos + Size(buffer[pos..])..];
    var patched := SpliceVarint(buffer, pos, newValue).value;
    assert patched[pos..] == Encode(newValue) + tail;
    EncodeDecode(newValue, tail);
  }

  /** A splice touches only the old header: the bytes before it are kept,
      every byte after it moves by the change in header length, and the
      buffer's length changes by that same amount. */
  lemma SplicePreservesOutside(buffer: seq<Byte>, pos: nat, newValue: nat)
    requires HasVarintAt(buffer, pos)
    ensures SpliceVarint(buffer, pos, newValue).Ok?
    ensures var oldLength, newLength := Size(buffer[pos..]), VarintLength(newValue);
      var patched := SpliceVarint(buffer, pos, newValue).value;
      && |patched| == |buffer| - oldLength + newLength
      && patched[..pos] == buffer[..pos]
      && forall i :: pos + oldLength <= i < |buffer| ==> patched[i - oldLength + newLength] == buffer[i]
  {
  }

  /** A header that ends before pos reads the same after a splice at pos. */
  lemma SpliceKeepsEarlierHeader(buffer: seq<Byte>, pos: nat, newValue: nat, earlier: nat)
    requires HasVarintAt(buffer, pos)
    requires HasVarintAt(buffer[..pos], earlier)
    ensures SpliceVarint(buffer, pos, newValue).Ok?
    ensures HeaderAt(SpliceVarint(buffer, pos, newValue).value, earlier) == HeaderAt(buffer, earlier)
  {
    var patched := SpliceVarint(buffer, pos, newValue).value;
    var suffix := Encode(newValue) + buffer[pos + Size(buffer[pos..])..];
    assert patched[earlier..] == buffer[..pos][earlier..] + suffix;
    assert buffer[earlier..] == buffer[..pos][earlier..] + buffer[pos..];
    DecodeExtend(buffer[..pos][earlier..], suffix);
    DecodeExtend(buffer[..pos][earlier..], buffer[pos..]);
  }

  // ---------------------------------------------------------------------
  // transform_dictionary_format

  /** Every position listed under some block of the metadata. */
  function AllPositions(d: seq<(BlockName, seq<nat>)>): (ps: set<nat>)
    ensures forall p :: p in ps <==> exists i :: 0 <= i < |d| && p in d[i].1
  {
    if d == [] then {}
    else
      var ps := (set p | p in d[0].1) + AllPositions(d[1..]);
      assert forall p, i :: 0 < i < |d| && p in d[i].1 ==> p in d[1..][i - 1].1;
      ps
  }

  /** The blocks, in the metadata's order, whose position list holds p. */
  function BlocksAt(d: seq<(BlockName, seq<nat>)>, p: nat): (bs: seq<BlockName>)
    ensures forall b :: b in bs <==> exists i :: 0 <= i < |d| && d[i].0 == b && p in d[i].1
  {
    if d == [] then []
    else
      var bs := (if p in d[0].1 then [d[0].0] else []) + BlocksAt(d[1..], p);
      assert forall i :: 0 < i < |d| ==> d[1..][i - 1] == d[i];
      bs
  }

  /** Inverts block -> positions into position -> blocks. The dictionary of
      the source is the sequence of its entries in insertion order. */
  function TransformDictionaryFormat(d: seq<(BlockName, seq<nat>)>): (r: map<nat, seq<BlockName>>)
    ensures forall p :: p in r <==> exists i :: 0 <= i < |d| && p in d[i].1
    ensures forall p, b :: p in r ==> (b in r[p] <==> exists i :: 0 <= i < |d| && d[i].0 == b && p in d[i].1)
  {
    map p | p in AllPositions(d) :: BlocksAt(d, p)
  }

  predicate DistinctKeys(d: seq<(BlockName, seq<nat>)>)
  {
    forall i, j :: 0 <= i < j < |d| ==> d[i].0 != d[j].0
  }

  predicate Distinct(s: seq<BlockName>)
  {
    forall i, j :: 0 <= i < j < |s| ==> s[i] != s[j]
  }

  lemma {:induction false} BlocksAtDistinct(d: seq<(BlockName, seq<nat>)>, p: nat)
    requires DistinctKeys(d)
    ensures Distinct(BlocksAt(d, p))
  {
    if d != [] {
      assert DistinctKeys(d[1..]) by {
        forall i, j | 0 <= i < j < |d| - 1 ensures d[1..][i].0 != d[1..][j].0 {
          assert d[1..][i] == d[i + 1] && d[1..][j] == d[j + 1];
        }
      }
      BlocksAtDistinct(d[1..], p);
      var tail := BlocksAt(d[1..], p);
      if p in d[0].1 {
        assert d[0].0 !in tail;
        assert BlocksAt(d, p) == [d[0].0] + tail;
      }
    }
  }

  /** With the dictionary's keys distinct, no block is listed twice under a
      position. */
  lemma TransformListsEachBlockOnce(d: seq<(BlockName, seq<nat>)>)
    requires DistinctKeys(d)
    ensures forall p :: p in TransformDictionaryFormat(d) ==> Distinct(TransformDictionaryFormat(d)[p])
  {
    forall p | p in TransformDictionaryFormat(d)
      ensures Distinct(TransformDictionaryFormat(d)[p])
    {
      BlocksAtDistinct(d, p);
    }
  }

  // ---------------------------------------------------------------------
  // get_pruned_block_length and recalculate_block_length

  /** How much larger a block of blockSize bytes with its own length header
      is than the pointer that stands for it, with the pointer's header: the
      amount an enclosing header sized for the block is lowered by. The
      file size lookup is the parameter blockSize. */
  function GetPrunedBlockLength(blockSize: nat): (r: int)
    ensures r == blockSize + VarintLength(blockSize) - (BlockLength + 1)
    ensures r > 0 <==> blockSize > BlockLength
    ensures r == 0 <==> blockSize == BlockLength
  {
    blockSize + VarintLength(blockSize) - BlockLength - VarintLength(BlockLength)
  }

  predicate AllKnown(names: seq<BlockName>, sizes: map<BlockName, nat>)
  {
    forall n :: n in names ==> n in sizes
  }

  /** Sum of the pruned lengths of the named blocks. */
  function SumPruned(names: seq<BlockName>, sizes: map<BlockName, nat>): int
    requires AllKnown(names, sizes)
  {
    if names == [] then 0 else GetPrunedBlockLength(sizes[names[0]]) + SumPruned(names[1..], sizes)
  }

  lemma {:induction false} SumPrunedConcat(a: seq<BlockName>, b: seq<BlockName>, sizes: map<BlockName, nat>)
    requires AllKnown(a, sizes) && AllKnown(b, sizes)
    ensures AllKnown(a + b, sizes)
    ensures SumPruned(a + b, sizes) == SumPruned(a, sizes) + SumPruned(b, sizes)
  {
    if a != [] {
      assert (a + b)[0] == a[0] && (a + b)[1..] == a[1..] + b;
      SumPrunedConcat(a[1..], b, sizes);
    } else {
      assert a + b == b;
    }
  }

  /** The header value at position minus the pruned lengths of all blocks
      listed under it. IndexError when there is no complete varint at
      position (read first, as in the source); BlockFileMissing when a
      listed block has no size. */
  function RecalculateBlockLength(position: nat, blocksNames: seq<BlockName>, buffer: seq<Byte>,
                                  sizes: map<BlockName, nat>): (r: Result<int>)
    ensures r.Ok? <==> HasVarintAt(buffer, position) && AllKnown(blocksNames, sizes)
    ensures !HasVarintAt(buffer, position) ==> r == Err(IndexError)
    ensures HasVarintAt(buffer, position) && !AllKnown(blocksNames, sizes) ==> r == Err(BlockFileMissing)
    ensures r.Ok? ==> r.value == Decode(buffer[position..]) - SumPruned(blocksNames, sizes)
  {
    match HeaderAt(buffer, position)
    case Err(e) => Err(e)
    case Ok(header) =>
      if AllKnown(blocksNames, sizes) then Ok(header - SumPruned(blocksNames, sizes))
      else Err(BlockFileMissing)
  }

  /** Each block under a position contributes on its own: dropping one
      block from the list raises the recalculated length by exactly that
      block's pruned length. */
  lemma RecalculateWithoutBlock(position: nat, blocksNames: seq<BlockName>, buffer: seq<Byte>,
                                sizes: map<BlockName, nat>, i: nat)
    requires RecalculateBlockLength(position, blocksNames, buffer, sizes).Ok?
    requires i < |blocksNames|
    ensures var without := blocksNames[..i] + blocksNames[i + 1..];
      && RecalculateBlockLength(position, without, buffer, sizes).Ok?
      && RecalculateBlockLength(position, without, buffer, sizes).value
         == RecalculateBlockLength(position, blocksNames, buffer, sizes).value
            + GetPrunedBlockLength(sizes[blocksNames[i]])
  {
    var before, after := blocksNames[..i], blocksNames[i + 1..];
    assert blocksNames == before + ([blocksNames[i]] + after);
    SumPrunedConcat([blocksNames[i]], after, sizes);
    SumPrunedConcat(before, [blocksNames[i]] + after, sizes);
    SumPrunedConcat(before, after, sizes);
  }

  /** The subtraction can drive the result below zero: a header of 0 over a
      100-byte block recalculates to -64. */
  lemma RecalculateCanBeNegative()
    ensures RecalculateBlockLength(0, ["a"], [0], map["a" := 100]) == Ok(-64)
  {
    assert Encode(100) == [100];
  }

  // ---------------------------------------------------------------------
  // generate_new_buffer

  /** What generate_new_buffer yields: set_varint_value applied once per
      entry, in the order of the entries; the first IndexError aborts. */
  function PatchAll(lengths: seq<(nat, nat)>, buffer: seq<Byte>): Result<seq<Byte>>
    decreases |lengths|
  {
    if lengths == [] then Ok(buffer)
    else
      match SpliceVarint(buffer, lengths[0].0, lengths[0].1)
      case Err(e) => Err(e)
      case Ok(next) => PatchAll(lengths[1..], next)
  }

  /** Rewrites every header in turn, each on the buffer left by the one
      before. The dictionary of the source is the sequence of its entries in
      iteration order. */
  method GenerateNewBuffer(lengths: seq<(nat, nat)>, buffer: seq<Byte>) returns (r: Result<seq<Byte>>)
    ensures r == PatchAll(lengths, buffer)
  {
    var current := buffer;
    for k := 0 to |lengths|
      invariant PatchAll(lengths, buffer) == PatchAll(lengths[k..], current)
    {
      assert lengths[k..][0] == lengths[k] && lengths[k..][1..] == lengths[k + 1..];
      var (varintPos, newValue) := lengths[k];
      var next := SetVarintValue(varintPos, current, newValue);
      if next.Err? {
        return Err(next.error);
      }
      current := next.value;
    }
    assert lengths[|lengths|..] == [];
    r := Ok(current);
  }

  /** Each entry's header is complete and lies wholly before the header of
      the entry applied just before it: positions strictly descending, no
      two headers overlapping. */
  predicate DescendingHeaders(lengths: seq<(nat, nat)>, buffer: seq<Byte>)
    decreases |lengths|
  {
    |lengths| == 0
    || (HasVarintAt(buffer, lengths[0].0) && DescendingHeaders(lengths[1..], buffer[..lengths[0].0]))
  }

  /** All headers rewritten on the original layout in one pass: the bytes
      between headers are the buffer's own, each header is the encoding of
      its new value. */
  function Rebuild(lengths: seq<(nat, nat)>, buffer: seq<Byte>): seq<Byte>
    requires DescendingHeaders(lengths, buffer)
    decreases |lengths|
  {
    if |lengths| == 0 then buffer
    else
      var pos := lengths[0].0;
      Rebuild(lengths[1..], buffer[..pos]) + Encode(lengths[0].1) + buffer[pos + Size(buffer[pos..])..]
  }

  /** Bytes after the header's buffer do not change a splice: they are
      carried along unchanged behind it. */
  lemma SpliceWithTail(prefix: seq<Byte>, tail: seq<Byte>, pos: nat, newValue: nat)
    requires HasVarintAt(prefix, pos)
    ensures SpliceVarint(prefix + tail, pos, newValue)
         == Ok(prefix[..pos] + ((Encode(newValue) + prefix[pos + Size(prefix[pos..])..]) + tail))
  {
    var buffer := prefix + tail;
    assert buffer[pos..] == prefix[pos..] + tail;
    DecodeExtend(prefix[pos..], tail);
    var oldLength := Size(prefix[pos..]);
    assert buffer[..pos] == prefix[..pos];
    assert buffer[pos + oldLength..] == prefix[pos + oldLength..] + tail;
    var head, enc, mid := prefix[..pos], Encode(newValue), prefix[pos + oldLength..];
    assert SpliceVarint(buffer, pos, newValue) == Ok(head + enc + (mid + tail));
    Assoc(head, enc, mid + tail);
    Assoc(enc, mid, tail);
  }

  lemma {:induction false} PatchAllWithTail(lengths: seq<(nat, nat)>, prefix: seq<Byte>, tail: seq<Byte>)
    requires DescendingHeaders(lengths, prefix)
    ensures PatchAll(lengths, prefix + tail) == Ok(Rebuild(lengths, prefix) + tail)
    decreases |lengths|
  {
    if |lengths| > 0 {
      var (pos, newValue) := lengths[0];
      SpliceWithTail(prefix, tail, pos, newValue);
      var head, enc, mid := prefix[..pos], Encode(newValue), prefix[pos + Size(prefix[pos..])..];
      var rest := (enc + mid) + tail;
      assert PatchAll(lengths, prefix + tail) == PatchAll(lengths[1..], head + rest);
      assert DescendingHeaders(lengths[1..], head);
      PatchAllWithTail(lengths[1..], head, rest);
      var r1 := Rebuild(lengths[1..], head);
      assert Rebuild(lengths, prefix) == r1 + enc + mid;
      Assoc(r1, enc + mid, tail);
      Assoc(r1, enc, mid);
    } else {
      assert Rebuild(lengths, prefix) == prefix;
    }
  }

  /** Entries in descending header order are safe: every rewrite reads and
      replaces the original header, because a splice never moves the bytes
      before it, and the loop equals the one-pass rebuild. */
  lemma DescendingPatchesReadOriginal(lengths: seq<(nat, nat)>, buffer: seq<Byte>)
    requires DescendingHeaders(lengths, buffer)
    ensures PatchAll(lengths, buffer) == Ok(Rebuild(lengths, buffer))
  {
    PatchAllWithTail(lengths, buffer, []);
    assert buffer + [] == buffer;
    assert Rebuild(lengths, buffer) + [] == Rebuild(lengths, buffer);
  }

  /** A one-byte header is replaced by the new encoding, nothing more. */
  lemma SpliceOneByteHeader(buffer: seq<Byte>, pos: nat, newValue: nat)
    requires pos < |buffer| && buffer[pos] < 128
    ensures SpliceVarint(buffer, pos, newValue) == Ok(buffer[..pos] + Encode(newValue) + buffer[pos + 1..])
  {
    TerminatorAt(buffer[pos..], 0);
  }

  /** The headers the two orders below leave at the front of the buffer. */
  lemma PatchedHeaders()
    ensures HeaderAt([0xC8, 0x05, 0x01, 0x00, 0x00], 0) == Ok(712)
    ensures HeaderAt([0xC8, 0x01, 0x05, 0x00, 0x00], 0) == Ok(200)
    ensures HeaderAt([0xC8, 0x01, 0x05, 0x00, 0x00], 2) == Ok(5)
  {
    assert [0xC8, 0x05, 0x01, 0x00, 0x00][0..][1..] == [0x05, 0x01, 0x00, 0x00];
    assert [0xC8, 0x01, 0x05, 0x00, 0x00][0..][1..] == [0x01, 0x05, 0x00, 0x00];
  }

  /** Order matters, ascending half: on [3, 1, 0, 0], rewriting the header
      at 0 to 200 first grows it to two bytes, and the rewrite meant for the
      header at 1 then lands inside it, so the outer header reads 712, not
      200. */
  lemma AscendingPatchesCorrupt(buffer: seq<Byte>)
    requires buffer == [3, 1, 0, 0]
    ensures PatchAll([(0, 200), (1, 5)], buffer) == Ok([0xC8, 0x05, 0x01, 0x00, 0x00])
    ensures HeaderAt([0xC8, 0x05, 0x01, 0x00, 0x00], 0) == Ok(712)
  {
    assert Encode(200) == [0xC8, 0x01];
    assert Encode(5) == [0x05];
    var grown := [0xC8, 0x01, 0x01, 0x00, 0x00];
    SpliceOneByteHeader(buffer, 0, 200);
    assert buffer[..0] + [0xC8, 0x01] + buffer[1..] == grown;
    SpliceOneByteHeader(grown, 1, 5);
    assert grown[..1] + [0x05] + grown[2..] == [0xC8, 0x05, 0x01, 0x00, 0x00];
    assert [(0, 200), (1, 5)][1..] == [(1, 5)];
    assert [(1, 5)][1..] == [];
    PatchedHeaders();
  }

  /** Order matters, descending half: on the same buffer, rewriting the
      header at 1 first and the one at 0 second writes both as intended. */
  lemma DescendingPatchesExample(buffer: seq<Byte>)
    requires buffer == [3, 1, 0, 0]
    ensures PatchAll([(1, 5), (0, 200)], buffer) == Ok([0xC8, 0x01, 0x05, 0x00, 0x00])
    ensures HeaderAt([0xC8, 0x01, 0x05, 0x00, 0x00], 0) == Ok(200)
    ensures HeaderAt([0xC8, 0x01, 0x05, 0x00, 0x00], 2) == Ok(5)
  {
    assert Encode(200) == [0xC8, 0x01];
    assert Encode(5) == [0x05];
    var inner := [3, 5, 0, 0];
    SpliceOneByteHeader(buffer, 1, 5);
    assert buffer[..1] + [0x05] + buffer[2..] == inner;
    SpliceOneByteHeader(inner, 0, 200);
    assert inner[..0] + [0xC8, 0x01] + inner[1..] == [0xC8, 0x01, 0x05, 0x00, 0x00];
    assert [(1, 5), (0, 200)][1..] == [(0, 200)];
    assert [(0, 200)][1..] == [];
    PatchedHeaders();
  }
}
