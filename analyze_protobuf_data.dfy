/** The field splitter of test/analyze_protobuf_data.py: a run of
    length-delimited protobuf fields (wire type 2), each a one-byte tag, a
    varint length and that many payload bytes, cut into its fields with the
    offset at which each payload starts. */
module AnalyzeProtobufData {
  import opened Bytes
  import opened Varint
  import opened Results

  /** One extracted field: the field number of its tag, its declared
      length, its payload bytes, and the offset of the payload in the
      caller's coordinates (-1 for a payload cut short by the data's end). */
  datatype Field = Field(number: nat, length: nat, message: seq<Byte>, position: int)

  /** Fields found so far, followed by whatever the rest yields; an error in
      the rest discards them. */
  function Prepend(fs: seq<Field>, r: Result<seq<Field>>): Result<seq<Field>>
  {
    match r
    case Ok(more) => Ok(fs + more)
    case Err(e) => Err(e)
  }

  /** Prepending in two steps is prepending once. */
  lemma PrependTwice(fs: seq<Field>, gs: seq<Field>, r: Result<seq<Field>>)
    ensures Prepend(fs, Prepend(gs, r)) == Prepend(fs + gs, r)
  {
    if r.Ok? {
      assert fs + (gs + r.value) == (fs + gs) + r.value;
    }
  }

  /** Prepending no fields changes nothing. */
  lemma PrependNothing(r: Result<seq<Field>>)
    ensures Prepend([], r) == r
  {
    if r.Ok? {
      assert [] + r.value == r.value;
    }
  }

  /** What extract_protobuf_data yields on data whose first byte sits at
      offset start. Extraction stops quietly at the end of the data or at a
      tag whose wire type is not 2, fails with MalformedVarint when the
      length varint runs off the end, and ends with a truncated field when
      fewer payload bytes remain than the length declares. */
  function Extract(data: seq<Byte>, start: int): Result<seq<Field>>
    decreases 2 * |data| + 1
  {
    if |data| == 0 || data[0] % 8 != 2 then Ok([])
    else if !Terminated(data[1..]) then Err(MalformedVarint)
    else
      var header := 1 + Size(data[1..]);
      ExtractPayload(data[0] / 8, Decode(data[1..]), data[header..], start + header)
  }

  /** The rest of Extract once a field's header is read: rest holds the
      bytes after the header, whose first byte sits at offset at. */
  function ExtractPayload(number: nat, length: nat, rest: seq<Byte>, at: int): Result<seq<Field>>
    decreases 2 * |rest| + 2
  {
    if |rest| < length then Ok([Field(number, length, rest, -1)])
    else Prepend([Field(number, length, rest[..length], at)], Extract(rest[length..], at + length))
  }

  /** Extract once the length header of its first field is decoded. */
  lemma ExtractHeader(data: seq<Byte>, start: int, i: nat, length: nat)
    requires |data| > 0 && data[0] % 8 == 2 && Terminated(data[1..])
    requires i == Size(data[1..]) && length == Decode(data[1..])
    ensures Extract(data, start) == ExtractPayload(data[0] / 8, length, data[i + 1..], start + (i + 1))
  {
  }

  /** A payload cut short by the end of the data ends the extraction. */
  lemma PayloadTruncated(number: nat, length: nat, rest: seq<Byte>, at: int)
    requires |rest| < length
    ensures ExtractPayload(number, length, rest, at) == Ok([Field(number, length, rest, -1)])
  {
  }

  /** A complete payload is a field, and extraction goes on after it. */
  lemma PayloadComplete(number: nat, length: nat, rest: seq<Byte>, at: int)
    requires length <= |rest|
    ensures ExtractPayload(number, length, rest, at)
         == Prepend([Field(number, length, rest[..length], at)], Extract(rest[length..], at + length))
  {
  }

  /** One turn of the extraction loop on the specification side: with the
      fields found so far and a decoded length header at the head of data,
      the whole result is those fields plus a truncated last field, or those
      fields plus the next field followed by whatever the rest yields. */
  lemma ExtractAdvance(orig: seq<Byte>, start: int, result: seq<Field>, data: seq<Byte>, position: int,
                       number: nat, i: nat, length: nat)
    requires Extract(orig, start) == Prepend(result, Extract(data, position))
    requires |data| > 0 && data[0] % 8 == 2 && number == data[0] / 8 && Terminated(data[1..])
    requires i == Size(data[1..]) && length == Decode(data[1..])
    ensures var rest, at := data[i + 1..], position + (i + 1);
      && (|rest| < length ==> Extract(orig, start) == Ok(result + [Field(number, length, rest, -1)]))
      && (length <= |rest| ==>
            Extract(orig, start)
            == Prepend(result + [Field(number, length, rest[..length], at)], Extract(rest[length..], at + length)))
  {
    var rest, at := data[i + 1..], position + (i + 1);
    ExtractHeader(data, position, i, length);
    if |rest| < length {
      PayloadTruncated(number, length, rest, at);
    } else {
      PayloadComplete(number, length, rest, at);
      PrependTwice(result, [Field(number, length, rest[..length], at)], Extract(rest[length..], at + length));
    }
  }

  /** The length varint that follows the tag byte at data[0], decoded one
      byte at a time; on success the value and the index of its last byte,
      MalformedVarint when the data ends first. */
  method DecodeLength(data: seq<Byte>) returns (r: Result<(nat, nat)>)
    requires |data| > 0
    ensures r.Ok? <==> Terminated(data[1..])
    ensures r.Err? ==> r.error == MalformedVarint
    ensures r.Ok? ==> r.value == (Decode(data[1..]), Size(data[1..]))
  {
    var length: nat := 0;
    var scale: nat := 1;  // 1 << shift
    var i := 1;
    while true
      invariant 1 <= i <= |data|
      invariant length == GroupSum(data[1..], i - 1)
      invariant scale == Pow128(i - 1)
      invariant forall j :: 1 <= j < i ==> data[j] >= 128
      decreases |data| - i
    {
      if i == |data| {
        NoTerminator(data[1..]);
        return Err(MalformedVarint);
      }
      var byte := data[i];
      assert data[1..][i - 1] == byte;
      length := length + (byte % 128) * scale;  // length |= (byte & 0x7F) << shift
      if byte < 128 {
        break;
      }
      scale := scale * 128;
      i := i + 1;
    }
    TerminatorAt(data[1..], i - 1);
    DecodeIsGroupSum(data[1..]);
    r := Ok((length, i));
  }

  /** Walks the data field by field: reads the tag, decodes the length
      varint byte by byte, then takes the payload and moves past it. */
  method ExtractProtobufData(binaryData: seq<Byte>, lengthPosition: int := 0) returns (r: Result<seq<Field>>)
    ensures r == Extract(binaryData, lengthPosition)
  {
    var data := binaryData;
    var position := lengthPosition;
    var result: seq<Field> := [];
    PrependNothing(Extract(data, position));
    while |data| > 0
      invariant Extract(binaryData, lengthPosition) == Prepend(result, Extract(data, position))
      decreases |data|
    {
      var localPosition := |data|;
      var fieldTag := data[0];
      var fieldNumber := fieldTag / 8;  // field_tag >> 3
      var wireType := fieldTag % 8;     // field_tag & 0x07
      if wireType != 2 {
        assert result + [] == result;
        return Ok(result);
      }
      var decoded := DecodeLength(data);
      if decoded.Err? {
        return Err(decoded.error);
      }
      var (length, i) := decoded.value;
      ghost var header, headerAt := data, position;
      data := data[i + 1..];
      localPosition := localPosition - |data|;
      assert localPosition == i + 1;
      position := position + localPosition;
      assert && (|data| < length ==> Extract(binaryData, lengthPosition) == Ok(result + [Field(fieldNumber, length, data, -1)]))
             && (length <= |data| ==>
                   Extract(binaryData, lengthPosition)
                   == Prepend(result + [Field(fieldNumber, length, data[..length], position)], Extract(data[length..], position + length)))
      by {
        ExtractAdvance(binaryData, lengthPosition, result, header, headerAt, fieldNumber, i, length);
      }
      if |data| < length {
        result := result + [Field(fieldNumber, length, data, -1)];
        return Ok(result);
      }
      var message := data[..length];
      assert |message| == length;
      data := data[length..];
      result := result + [Field(fieldNumber, length, message, position)];
      position := position + |message|;
    }
    assert result + [] == result;
    r := Ok(result);
  }

  /** Where a field sits in the data it was extracted from (whose first byte
      is at offset start): a complete field's payload is the data's bytes at
      its position, after at least a tag and a length byte; a truncated
      field has position -1, fewer payload bytes than its length, and its
      payload is all that was left of the data. */
  predicate WellPlaced(f: Field, data: seq<Byte>, start: int)
  {
    if |f.message| == f.length then
      && start + 2 <= f.position
      && f.position - start + f.length <= |data|
      && f.message == data[f.position - start .. f.position - start + f.length]
    else
      && |f.message| < f.length
      && f.position == -1
      && |f.message| <= |data|
      && f.message == data[|data| - |f.message|..]
  }

  /** A field placed in a suffix of the data is placed in the data. */
  lemma WellPlacedInSuffix(f: Field, data: seq<Byte>, start: int, k: nat)
    requires k <= |data|
    requires WellPlaced(f, data[k..], start + k)
    ensures WellPlaced(f, data, start)
  {
    if |f.message| == f.length {
      var a := f.position - start - k;
      assert data[k..][a .. a + f.length] == data[k + a .. k + a + f.length];
    } else {
      assert data[k..][|data| - k - |f.message|..] == data[|data| - |f.message|..];
    }
  }

  /** What an extracted list promises about the data it came from: every
      field number is below 32 because the tag is read as one byte, every field
      sits where it was read, only the last field can be truncated, and
      complete fields come in the order of the data, each at least a header
      past the end of the one before. */
  predicate Extracted(fs: seq<Field>, data: seq<Byte>, start: int)
  {
    && (forall i :: 0 <= i < |fs| ==> fs[i].number < 32)
    && (forall i :: 0 <= i < |fs| ==> WellPlaced(fs[i], data, start))
    && (forall i :: 0 <= i < |fs| - 1 ==> |fs[i].message| == fs[i].length)
    && (forall i :: 0 <= i < |fs| - 1 && |fs[i + 1].message| == fs[i + 1].length ==>
          fs[i].position + fs[i].length + 2 <= fs[i + 1].position)
  }

  /** A complete field ending where a suffix of the data begins, followed by
      fields extracted from that suffix, is a list extracted from the data. */
  lemma ExtractedCons(first: Field, more: seq<Field>, data: seq<Byte>, start: int, k: nat)
    requires k <= |data|
    requires first.number < 32 && WellPlaced(first, data, start)
    requires |first.message| == first.length && first.position + first.length == start + k
    requires Extracted(more, data[k..], start + k)
    ensures Extracted([first] + more, data, start)
  {
    var fs := [first] + more;
    forall i | 0 <= i < |fs|
      ensures fs[i].number < 32 && WellPlaced(fs[i], data, start)
    {
      if i > 0 {
        assert fs[i] == more[i - 1];
        WellPlacedInSuffix(more[i - 1], data, start, k);
      }
    }
    forall i | 0 <= i < |fs| - 1
      ensures |fs[i].message| == fs[i].length
    {
      if i > 0 {
        assert fs[i] == more[i - 1];
      }
    }
    forall i | 0 <= i < |fs| - 1 && |fs[i + 1].message| == fs[i + 1].length
      ensures fs[i].position + fs[i].length + 2 <= fs[i + 1].position
    {
      assert fs[i + 1] == more[i];
      if i > 0 {
        assert fs[i] == more[i - 1];
      } else {
        assert WellPlaced(more[0], data[k..], start + k);
      }
    }
  }

  /** Everything extract_protobuf_data returns satisfies Extracted. */
  lemma {:induction false} ExtractFields(data: seq<Byte>, start: int)
    requires Extract(data, start).Ok?
    ensures Extracted(Extract(data, start).value, data, start)
    decreases |data|, 0
  {
    if |data| == 0 || data[0] % 8 != 2 {
      assert Extract(data, start).value == [];
    } else {
      assert Terminated(data[1..]);
      var header := 1 + Size(data[1..]);
      PayloadFields(data[0] / 8, Decode(data[1..]), data[header..], start + header, data, start, header);
    }
  }

  /** ExtractFields once a header of at least two bytes is read: the
      payload part lies at offset header of the data. */
  lemma {:induction false} PayloadFields(number: nat, length: nat, rest: seq<Byte>, at: int,
                                         data: seq<Byte>, start: int, header: nat)
    requires number < 32 && 2 <= header <= |data|
    requires rest == data[header..] && at == start + header
    requires ExtractPayload(number, length, rest, at).Ok?
    ensures Extracted(ExtractPayload(number, length, rest, at).value, data, start)
    decreases |rest|, 2
  {
    if |rest| < length {
      var last := Field(number, length, rest, -1);
      assert ExtractPayload(number, length, rest, at).value == [last];
      assert WellPlaced(last, data, start);
    } else {
      var k := header + length;
      var first := Field(number, length, rest[..length], at);
      assert rest[..length] == data[header .. k];
      assert rest[length..] == data[k..];
      assert at + length == start + k;
      assert ExtractPayload(number, length, rest, at) == Prepend([first], Extract(data[k..], start + k));
      assert WellPlaced(first, data, start);
      ExtractFields(data[k..], start + k);
      ExtractedCons(first, Extract(data[k..], start + k).value, data, start, k);
    }
  }

  /** An extraction fails only on a length varint that runs off the end. */
  lemma {:induction false} ExtractFailsOnlyOnMalformedLength(data: seq<Byte>, start: int)
    requires Extract(data, start).Err?
    ensures Extract(data, start).error == MalformedVarint
    decreases |data|
  {
    if |data| > 0 && data[0] % 8 == 2 && Terminated(data[1..]) {
      var header := 1 + Size(data[1..]);
      var rest := data[header..];
      ExtractFailsOnlyOnMalformedLength(rest[Decode(data[1..])..], start + header + Decode(data[1..]));
    }
  }

  /** A field number whose protobuf tag, a varint, fits one byte beside
      the three wire-type bits. */
  type TagNumber = n: nat | n < 16

  /** The tag of a length-delimited field: the field number above wire
      type 2, a one-byte varint. */
  function Tag(number: TagNumber): (b: Byte)
    ensures b < 128
    ensures b % 8 == 2 && b / 8 == number
  {
    number * 8 + 2
  }

  /** A run of length-delimited fields on the wire: for each (number,
      payload), the tag byte number * 8 + 2, the varint length of the
      payload, and the payload. */
  function Serialize(fields: seq<(TagNumber, seq<Byte>)>): seq<Byte>
  {
    if fields == [] then []
    else [Tag(fields[0].0)] + Encode(|fields[0].1|) + fields[0].1 + Serialize(fields[1..])
  }

  /** The fields Extract should find in Serialize(fields) placed at start:
      each payload's offset is just past its tag and length bytes. */
  function Placed(fields: seq<(TagNumber, seq<Byte>)>, start: int): seq<Field>
  {
    if fields == [] then []
    else
      var at := start + 1 + VarintLength(|fields[0].1|);
      [Field(fields[0].0, |fields[0].1|, fields[0].1, at)] + Placed(fields[1..], at + |fields[0].1|)
  }

  /** A complete payload followed by more data, unfolded once. */
  lemma PayloadSplit(number: nat, payload: seq<Byte>, more: seq<Byte>, at: int)
    ensures ExtractPayload(number, |payload|, payload + more, at)
         == Prepend([Field(number, |payload|, payload, at)], Extract(more, at + |payload|))
  {
    assert (payload + more)[..|payload|] == payload;
    assert (payload + more)[|payload|..] == more;
  }

  /** A tag for wire type 2 followed by bytes v that open with a k-byte
      header holding length and go on with body. */
  lemma HeaderSplit(number: TagNumber, v: seq<Byte>, k: nat, length: nat, body: seq<Byte>, start: int)
    requires Terminated(v) && Size(v) == k && Decode(v) == length && v[k..] == body
    ensures Extract([Tag(number)] + v, start) == ExtractPayload(number, length, body, start + 1 + k)
  {
    var data := [Tag(number)] + v;
    assert data[0] == Tag(number) && data[1..] == v;
    assert data[k + 1..] == v[k..];
    ExtractHeader(data, start, k, length);
  }

  /** A tag for wire type 2, then a varint enc holding length, then body. */
  lemma HeaderVarint(number: TagNumber, enc: seq<Byte>, length: nat, body: seq<Byte>, start: int)
    requires Terminated(enc + body) && Size(enc + body) == |enc| && Decode(enc + body) == length
    ensures Extract([Tag(number)] + (enc + body), start) == ExtractPayload(number, length, body, start + 1 + |enc|)
  {
    DropPrefix(enc, body);
    HeaderSplit(number, enc + body, |enc|, length, body, start);
  }

  /** Serialize peeled by one field, regrouped around the rest. */
  lemma SerializeCons(fields: seq<(TagNumber, seq<Byte>)>, tail: seq<Byte>)
    requires fields != []
    ensures Serialize(fields) + tail
         == [Tag(fields[0].0)] + (Encode(|fields[0].1|) + (fields[0].1 + (Serialize(fields[1..]) + tail)))
  {
    var tag: seq<Byte> := [Tag(fields[0].0)];
    var enc, payload, rest := Encode(|fields[0].1|), fields[0].1, Serialize(fields[1..]);
    assert Serialize(fields) == tag + enc + payload + rest;
    Assoc(tag + enc + payload, rest, tail);
    Assoc(tag + enc, payload, rest + tail);
    Assoc(tag, enc, payload + (rest + tail));
  }

  /** Placed peeled by one field. */
  lemma PlacedCons(fields: seq<(TagNumber, seq<Byte>)>, start: int)
    requires fields != []
    ensures var at := start + 1 + VarintLength(|fields[0].1|);
      Placed(fields, start) == [Field(fields[0].0, |fields[0].1|, fields[0].1, at)] + Placed(fields[1..], at + |fields[0].1|)
  {
  }

  /** A tag for wire type 2 followed by the encoding of length. */
  lemma HeaderOfEncoded(number: TagNumber, length: nat, body: seq<Byte>, start: int)
    ensures Extract([Tag(number)] + (Encode(length) + body), start)
         == ExtractPayload(number, length, body, start + 1 + VarintLength(length))
  {
    EncodeDecode(length, body);
    HeaderVarint(number, Encode(length), length, body, start);
  }

  /** One serialized field ahead of data that extracts to more: the field
      is found just past its header, then the rest. */
  lemma ExtractOneSerialized(number: TagNumber, payload: seq<Byte>, more: seq<Byte>, start: int,
                             rs: seq<Field>)
    requires Extract(more, start + 1 + VarintLength(|payload|) + |payload|) == Ok(rs)
    ensures Extract([Tag(number)] + (Encode(|payload|) + (payload + more)), start)
         == Ok([Field(number, |payload|, payload, start + 1 + VarintLength(|payload|))] + rs)
  {
    var at := start + 1 + VarintLength(|payload|);
    var field := Field(number, |payload|, payload, at);
    PayloadSplit(number, payload, more, at);
    assert ExtractPayload(number, |payload|, payload + more, at) == Ok([field] + rs);
    HeaderOfEncoded(number, |payload|, payload + more, start);
  }

  /** Round trip: extraction recovers every serialized field, with its
      number, payload and offset, and stops at whatever non-length-delimited
      tag (or end of data) follows. */
  lemma {:induction false} ExtractSerialized(fields: seq<(TagNumber, seq<Byte>)>, tail: seq<Byte>, start: int)
    requires |tail| == 0 || tail[0] % 8 != 2
    ensures Extract(Serialize(fields) + tail, start) == Ok(Placed(fields, start))
    decreases |fields|
  {
    if fields == [] {
      assert Serialize(fields) + tail == tail;
    } else {
      var number, payload := fields[0].0, fields[0].1;
      var at := start + 1 + VarintLength(|payload|);
      var field, later := Field(number, |payload|, payload, at), Placed(fields[1..], at + |payload|);
      PlacedCons(fields, start);
      assert Placed(fields, start) == [field] + later;
      var rest := Serialize(fields[1..]) + tail;
      ExtractSerialized(fields[1..], tail, at + |payload|);
      assert Extract(rest, at + |payload|) == Ok(later);
      ExtractOneSerialized(number, payload, rest, start, later);
      SerializeCons(fields, tail);
    }
  }

  /** The scanner reads the tag as a single byte. Protobuf writes the tag of
      field 16 as the two-byte varint 0x82 0x01, so the field 16 holding
      "A" (0x41) is misread: the second tag byte is taken as the length and
      the length byte as the payload. */
  lemma TwoByteTagMisread()
    ensures Extract([0x82, 0x01, 0x01, 0x41], 0) == Ok([Field(16, 1, [0x01], 2)])
  {
    var data: seq<Byte> := [0x82, 0x01, 0x01, 0x41];
    assert data[1..] == [0x01, 0x01, 0x41];
    assert data[2..] == [0x01, 0x41];
    assert data[2..][..1] == [0x01];
    assert data[2..][1..] == [0x41];
    TerminatorAt(data[1..], 0);
    ExtractHeader(data, 0, 1, 1);
    PayloadComplete(16, 1, data[2..], 2);
    assert Extract([0x41], 3) == Ok([]);
    assert [Field(16, 1, [0x01], 2)] + [] == [Field(16, 1, [0x01], 2)];
  }
}
