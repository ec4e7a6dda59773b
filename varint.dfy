/** Protobuf base-128 varints as values: seven payload bits per byte, least
    significant group first, the high bit of a byte set when another byte
    follows. This module is the reference the imperative decoders and
    encoders of the two core files are proved against. */
module Varint {
  import opened Bytes

  /** s begins with a complete varint: some byte of s has its high bit clear. */
  predicate Terminated(s: seq<Byte>)
  {
    |s| > 0 && (s[0] < 128 || Terminated(s[1..]))
  }

  /** Bytes taken by the varint at the head of s: the continuation bytes and
      the terminator, which is the first byte whose high bit is clear. */
  function Size(s: seq<Byte>): (n: nat)
    requires Terminated(s)
    ensures 1 <= n <= |s|
  {
    if s[0] < 128 then 1 else 1 + Size(s[1..])
  }

  /** Value of the varint at the head of s, group by group (Horner form). */
  function Decode(s: seq<Byte>): (v: nat)
    requires Terminated(s)
    ensures v < Pow128(Size(s))
  {
    if s[0] < 128 then s[0]
    else
      var rest := Decode(s[1..]);
      assert rest <= Pow128(Size(s[1..])) - 1;
      s[0] % 128 + 128 * rest
  }

  /** The sum of the low seven bits of the first n bytes, the i-th weighted
      by 128^i: what a decoding loop has accumulated after n bytes. */
  function GroupSum(s: seq<Byte>, n: nat): nat
    requires n <= |s|
  {
    if n == 0 then 0 else GroupSum(s, n - 1) + (s[n - 1] % 128) * Pow128(n - 1)
  }

  /** The varint encoding of v: groups of seven bits, least significant
      first (the shape is stated by EncodeShape). */
  function Encode(v: nat): (r: seq<Byte>)
    ensures 1 <= |r|
  {
    if v < 128 then [v] else [v % 128 + 128] + Encode(v / 128)
  }

  /** Every byte of an encoding but the last has the high bit set, the last
      has it clear, and 0 encodes as the single byte 0x00. */
  lemma {:induction false} EncodeShape(v: nat)
    ensures Encode(v)[|Encode(v)| - 1] < 128
    ensures forall i :: 0 <= i < |Encode(v)| - 1 ==> Encode(v)[i] >= 128
    ensures v == 0 ==> Encode(v) == [0x00]
  {
    if v >= 128 {
      EncodeShape(v / 128);
      var e := Encode(v);
      assert e == [v % 128 + 128] + Encode(v / 128);
      assert forall i :: 1 <= i < |e| ==> e[i] == Encode(v / 128)[i - 1];
    }
  }

  /** Concatenation regroups freely. */
  lemma Assoc(a: seq<Byte>, b: seq<Byte>, c: seq<Byte>)
    ensures a + (b + c) == (a + b) + c
  {
  }

  /** Dropping a prefix leaves what followed it. */
  lemma DropPrefix(a: seq<Byte>, b: seq<Byte>)
    ensures (a + b)[|a|..] == b
  {
  }

  /** One step of a group-at-a-time encoder: with `done` emitted and `rest`
      still to encode, the next byte is the low group of rest, flagged when
      more groups follow, and rest shrinks by seven bits. */
  lemma EncodeGroup(done: seq<Byte>, rest: nat, v: nat)
    requires done + Encode(rest) == Encode(v)
    ensures rest / 128 == 0 ==> done + [rest % 128] == Encode(v)
    ensures rest / 128 > 0 ==> rest / 128 < rest && (done + [rest % 128 + 128]) + Encode(rest / 128) == Encode(v)
  {
    if rest >= 128 {
      Assoc(done, [rest % 128 + 128], Encode(rest / 128));
    }
  }

  /** Number of bytes in the varint encoding of n. */
  function VarintLength(n: nat): nat
  {
    |Encode(n)|
  }

  /** pos addresses the first byte of a complete varint inside buf. */
  predicate HasVarintAt(buf: seq<Byte>, pos: nat)
  {
    pos < |buf| && Terminated(buf[pos..])
  }

  /** The terminator is the first byte with its high bit clear: a sequence
      whose byte k is the first such byte holds a varint of k + 1 bytes. */
  lemma {:induction false} TerminatorAt(s: seq<Byte>, k: nat)
    requires k < |s| && s[k] < 128
    requires forall j :: 0 <= j < k ==> s[j] >= 128
    ensures Terminated(s) && Size(s) == k + 1
  {
    if k > 0 {
      TerminatorAt(s[1..], k - 1);
    }
  }

  /** A sequence all of whose bytes have the high bit set holds no varint. */
  lemma {:induction false} NoTerminator(s: seq<Byte>)
    requires forall j :: 0 <= j < |s| ==> s[j] >= 128
    ensures !Terminated(s)
  {
    if |s| > 0 {
      NoTerminator(s[1..]);
    }
  }

  /** Peeling the first group off a weighted sum. */
  lemma {:induction false} GroupSumTail(s: seq<Byte>, n: nat)
    requires 1 <= n <= |s|
    ensures GroupSum(s, n) == s[0] % 128 + 128 * GroupSum(s[1..], n - 1)
  {
    if n > 1 {
      GroupSumTail(s, n - 1);
      var a, g, c, p := s[0] % 128, GroupSum(s[1..], n - 2), s[n - 1] % 128, Pow128(n - 2);
      assert s[1..][n - 2] == s[n - 1];
      assert GroupSum(s[1..], n - 1) == g + c * p;
      assert GroupSum(s, n) == a + 128 * g + c * (128 * p);
      ScaleWeight(c, p);
    }
  }

  /** Moving the factor 128 of a group's weight out of its product. */
  lemma ScaleWeight(c: nat, p: nat)
    ensures c * (128 * p) == 128 * (c * p)
  {
  }

  /** The decoded value is the weighted sum of the 7-bit groups up to and
      including the terminator. */
  lemma {:induction false} DecodeIsGroupSum(s: seq<Byte>)
    requires Terminated(s)
    ensures Decode(s) == GroupSum(s, Size(s))
  {
    GroupSumTail(s, Size(s));
    if s[0] >= 128 {
      DecodeIsGroupSum(s[1..]);
    }
  }

  /** Round trip: whatever follows an encoding, decoding at its start reads
      back exactly the encoded bytes and the encoded value. */
  lemma {:induction false} EncodeDecode(v: nat, rest: seq<Byte>)
    ensures Terminated(Encode(v) + rest)
    ensures Size(Encode(v) + rest) == |Encode(v)|
    ensures Decode(Encode(v) + rest) == v
  {
    var s := Encode(v) + rest;
    if v >= 128 {
      assert s[1..] == Encode(v / 128) + rest;
      EncodeDecode(v / 128, rest);
    }
  }

  /** Bytes after a complete varint do not change what it reads as. */
  lemma {:induction false} DecodeExtend(s: seq<Byte>, t: seq<Byte>)
    requires Terminated(s)
    ensures Terminated(s + t)
    ensures Size(s + t) == Size(s) && Decode(s + t) == Decode(s)
  {
    if s[0] >= 128 {
      assert (s + t)[1..] == s[1..] + t;
      DecodeExtend(s[1..], t);
    }
  }

  /** The encoding of n is the shortest number of 7-bit groups that holds n. */
  lemma {:induction false} VarintLengthBounds(n: nat)
    ensures n < Pow128(VarintLength(n))
    ensures VarintLength(n) > 1 ==> Pow128(VarintLength(n) - 1) <= n
  {
    if n >= 128 {
      VarintLengthBounds(n / 128);
    }
  }

  /** The fixed decoding examples of the source's unit tests. */
  lemma DecodeExamples()
    ensures Terminated([0x7F]) && Decode([0x7F]) == 127
    ensures Terminated([0xC0, 0x03]) && Decode([0xC0, 0x03]) == 448
    ensures HasVarintAt([0x00, 0x00, 0xC0, 0x03], 2) && Decode([0x00, 0x00, 0xC0, 0x03][2..]) == 448
  {
    assert [0xC0, 0x03][1..] == [0x03];
    assert [0x00, 0x00, 0xC0, 0x03][2..] == [0xC0, 0x03];
  }

  /** The source's largest test value: nine bytes 0xFF and a final 0x01
      decode to 2^64 - 1. */
  lemma DecodeMaxExample(max: seq<Byte>)
    requires |max| == 10 && max[9] == 0x01
    requires forall i :: 0 <= i < 9 ==> max[i] == 0xFF
    ensures Terminated(max) && Decode(max) == 0xFFFF_FFFF_FFFF_FFFF
  {
    assert Decode(max[9..]) == 0x1;
    assert max[8..][1..] == max[9..];
    assert Decode(max[8..]) == 0xFF;
    assert max[7..][1..] == max[8..];
    assert Decode(max[7..]) == 0x7FFF;
    assert max[6..][1..] == max[7..];
    assert Decode(max[6..]) == 0x3F_FFFF;
    assert max[5..][1..] == max[6..];
    assert Decode(max[5..]) == 0x1FFF_FFFF;
    assert max[4..][1..] == max[5..];
    assert Decode(max[4..]) == 0xF_FFFF_FFFF;
    assert max[3..][1..] == max[4..];
    assert Decode(max[3..]) == 0x7FF_FFFF_FFFF;
    assert max[2..][1..] == max[3..];
    assert Decode(max[2..]) == 0x3_FFFF_FFFF_FFFF;
    assert max[1..][1..] == max[2..];
    assert Decode(max[1..]) == 0x1FF_FFFF_FFFF_FFFF;
  }
}
