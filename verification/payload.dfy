/** The `data` sub-chunk of a WAVE file (`Payload` in `src/audios/wav.rs`):
    the decoded samples and the byte count they were decoded from. */
module Payload {
  import opened LittleEndian
  import opened Outcomes
  import opened Samples

  /** `totalBytes` is a `usize` in the implementation; it is recorded at
      decode time and written back on encode without being recomputed. */
  datatype Payload = Payload(samples: SampleBits, totalBytes: nat)

  /** ASCII "data" */
  const DataTag: seq<byte> := [100, 97, 116, 97]

  /** Whether `from_bytes` can decode n bytes at this bit depth: the depth
      must be one of the two supported ones and the bytes must split into
      whole samples, otherwise a trailing short chunk makes a read panic. */
  predicate Decodable(bits: int, n: nat)
  {
    (bits == 16 && n % 2 == 0) || (bits == 32 && n % 4 == 0)
  }

  /** The elements of s in the opposite order. */
  function Reverse<T>(s: seq<T>): (r: seq<T>)
    ensures |r| == |s|
  {
    seq(|s|, i requires 0 <= i < |s| => s[|s| - 1 - i])
  }

  /** The 16-bit arm of `from_bytes` as written: the 2-byte chunks are read
      in order and each sample is pushed onto the FRONT of the deque `acc`,
      so the last chunk ends up first. */
  function Decode16PushFront(b: seq<byte>, acc: seq<i16>): (r: seq<i16>)
    requires |b| % 2 == 0
    ensures |r| == |b| / 2 + |acc|
    decreases |b|
  {
    if |b| == 0 then acc else Decode16PushFront(b[2..], [ReadI16(b)] + acc)
  }

  /** Where each sample of the push-front decode comes from: the first
      |b|/2 samples are the chunks of b, last chunk first, and the samples
      already in the deque follow. */
  lemma {:induction false} PushFrontAt(b: seq<byte>, acc: seq<i16>, i: nat)
    requires |b| % 2 == 0 && i < |b| / 2 + |acc|
    ensures i < |b| / 2 ==> Decode16PushFront(b, acc)[i] == ReadI16(b[|b| - 2 - 2 * i..])
    ensures i >= |b| / 2 ==> Decode16PushFront(b, acc)[i] == acc[i - |b| / 2]
    decreases |b|
  {
    if |b| > 0 {
      var m := |b| / 2 - 1;
      PushFrontAt(b[2..], [ReadI16(b)] + acc, i);
      if i < m {
        assert b[2..][|b| - 4 - 2 * i..] == b[|b| - 2 - 2 * i..];
      } else if i == m {
        assert |b| - 2 - 2 * i == 0;
      }
    }
  }

  /** Samples decoded in chunk order: the order the 32-bit arm keeps, and
      the order the 16-bit arm evidently means to keep. */
  function Decode16InOrder(b: seq<byte>): (r: seq<i16>)
    requires |b| % 2 == 0
    ensures |r| == |b| / 2
    ensures forall i :: 0 <= i < |r| ==> r[i] == ReadI16(b[2 * i..])
    decreases |b|
  {
    if |b| == 0 then []
    else
      var r := [ReadI16(b)] + Decode16InOrder(b[2..]);
      assert forall i :: 1 <= i < |r| ==> b[2..][2 * (i - 1)..] == b[2 * i..];
      r
  }

  /** The 32-bit arm of `from_bytes`: 4-byte chunks read and pushed onto the
      back, so sample i comes from bytes 4i..4i+4. */
  function Decode32(b: seq<byte>): (r: seq<i32>)
    requires |b| % 4 == 0
    ensures |r| == |b| / 4
    ensures forall i :: 0 <= i < |r| ==> r[i] == ReadI32(b[4 * i..])
    decreases |b|
  {
    if |b| == 0 then []
    else
      var r := [ReadI32(b)] + Decode32(b[4..]);
      assert forall i :: 1 <= i < |r| ==> b[4..][4 * (i - 1)..] == b[4 * i..];
      r
  }

  /** The `for sample in samples { write_i16 }` loop of `to_bytes`. */
  function Encode16(s: seq<i16>): (r: seq<byte>)
    ensures |r| == 2 * |s|
  {
    if |s| == 0 then [] else I16Bytes(s[0]) + Encode16(s[1..])
  }

  /** The `for sample in samples { write_i32 }` loop of `to_bytes`. */
  function Encode32(s: seq<i32>): (r: seq<byte>)
    ensures |r| == 4 * |s|
  {
    if |s| == 0 then [] else I32Bytes(s[0]) + Encode32(s[1..])
  }

  /** The sample bytes `to_bytes` writes after the length field. */
  function EncodeSamples(b: SampleBits): (r: seq<byte>)
    ensures |r| == Count(b) * Width(b)
  {
    match b
    case I16bits(s) => Encode16(s)
    case I32bits(s) => Encode32(s)
  }

  /** `Payload::from_bytes` as written. It panics for a bit depth other than
      16 or 32 and for a byte count that leaves a short last chunk; otherwise
      it records the byte count and decodes every chunk. */
  function FromBytes(bits: u16, bytes: seq<byte>): (r: Result<Payload>)
    ensures r.Ok? <==> Decodable(bits, |bytes|)
    ensures bits != 16 && bits != 32 ==> r == Err(UnsupportedBitDepth(bits))
    ensures (bits == 16 || bits == 32) && r.Err? ==> r.panic == ReadPastEnd
    ensures r.Ok? ==> Bits(r.value.samples) == bits
    ensures r.Ok? ==> r.value.totalBytes == |bytes| == Count(r.value.samples) * Width(r.value.samples)
  {
    if bits == 16 then
      if |bytes| % 2 != 0 then Err(ReadPastEnd)
      else Ok(Payload(I16bits(Decode16PushFront(bytes, [])), |bytes|))
    else if bits == 32 then
      if |bytes| % 4 != 0 then Err(ReadPastEnd)
      else Ok(Payload(I32bits(Decode32(bytes)), |bytes|))
    else Err(UnsupportedBitDepth(bits))
  }

  /** `Payload::from_bytes` with the 16-bit samples kept in chunk order. */
  function FromBytesIntended(bits: u16, bytes: seq<byte>): (r: Result<Payload>)
    ensures r.Ok? <==> Decodable(bits, |bytes|)
    ensures bits != 16 && bits != 32 ==> r == Err(UnsupportedBitDepth(bits))
    ensures (bits == 16 || bits == 32) && r.Err? ==> r.panic == ReadPastEnd
    ensures r.Ok? ==> Bits(r.value.samples) == bits
    ensures r.Ok? ==> r.value.totalBytes == |bytes| == Count(r.value.samples) * Width(r.value.samples)
  {
    if bits == 16 then
      if |bytes| % 2 != 0 then Err(ReadPastEnd)
      else Ok(Payload(I16bits(Decode16InOrder(bytes)), |bytes|))
    else if bits == 32 then
      if |bytes| % 4 != 0 then Err(ReadPastEnd)
      else Ok(Payload(I32bits(Decode32(bytes)), |bytes|))
    else Err(UnsupportedBitDepth(bits))
  }

  /** The length field `to_bytes` writes: `total_bytes as u32`, a truncating
      cast from `usize`. */
  function LengthField(p: Payload): u32
  {
    p.totalBytes % 0x1_0000_0000
  }

  /** The cast keeps the low 32 bits: the field differs from the byte count
      by a multiple of 2^32, and equals it whenever it fits. */
  lemma LengthFieldTruncates(p: Payload)
    ensures LengthField(p) <= p.totalBytes
    ensures (p.totalBytes - LengthField(p)) % 0x1_0000_0000 == 0
    ensures p.totalBytes < 0x1_0000_0000 ==> LengthField(p) == p.totalBytes
  {
  }

  /** `Payload::to_bytes`: the tag, the cached length, then every sample.
      The length field is the value recorded at decode time, whatever the
      number of samples now held. */
  function ToBytes(p: Payload): (r: seq<byte>)
    ensures |r| == 8 + Count(p.samples) * Width(p.samples)
    ensures r[..4] == DataTag
    ensures ReadU32(r[4..]) == p.totalBytes % 0x1_0000_0000
    ensures r[8..] == EncodeSamples(p.samples)
  {
    var head, body := DataTag + U32Bytes(LengthField(p)), EncodeSamples(p.samples);
    assert (head + body)[4..] == U32Bytes(LengthField(p)) + body;
    assert (head + body)[8..] == body;
    ReadU32Written(LengthField(p), body);
    head + body
  }

  /** The first eight bytes of an encoded payload depend on the cached byte
      count alone, not on the samples. */
  lemma ToBytesHead(p: Payload)
    ensures ToBytes(p)[..8] == DataTag + U32Bytes(LengthField(p))
  {
  }

  /** Encoding sample sequences distributes over concatenation. */
  lemma {:induction false} Encode16Append(s: seq<i16>, t: seq<i16>)
    ensures Encode16(s + t) == Encode16(s) + Encode16(t)
  {
    if |s| > 0 {
      assert (s + t)[1..] == s[1..] + t;
      Encode16Append(s[1..], t);
    } else {
      assert s + t == t;
    }
  }

  /** Sample k of a 16-bit encoding sits at bytes 2k..2k+2. */
  lemma {:induction false} Encode16At(s: seq<i16>, k: nat)
    requires k < |s|
    ensures Encode16(s)[2 * k..2 * k + 2] == I16Bytes(s[k])
  {
    if k > 0 {
      Encode16At(s[1..], k - 1);
      assert Encode16(s)[2..] == Encode16(s[1..]);
    }
  }

  /** In-order decoding inverts 16-bit encoding, both ways round. */
  lemma {:induction false} Decode16InOrderEncode(s: seq<i16>)
    ensures Decode16InOrder(Encode16(s)) == s
  {
    if |s| > 0 {
      var e := Encode16(s);
      Decode16InOrderEncode(s[1..]);
      assert e[2..] == Encode16(s[1..]);
      ReadI16Written(s[0], Encode16(s[1..]));
    }
  }

  lemma {:induction false} Encode16Decode16InOrder(b: seq<byte>)
    requires |b| % 2 == 0
    ensures Encode16(Decode16InOrder(b)) == b
    decreases |b|
  {
    if |b| > 0 {
      Encode16Decode16InOrder(b[2..]);
      WriteI16Read(b);
      assert b == b[..2] + b[2..];
    }
  }

  lemma {:induction false} Decode32Encode(s: seq<i32>)
    ensures Decode32(Encode32(s)) == s
  {
    if |s| > 0 {
      var e := Encode32(s);
      Decode32Encode(s[1..]);
      assert e[4..] == Encode32(s[1..]);
      ReadI32Written(s[0], Encode32(s[1..]));
    }
  }

  lemma {:induction false} Encode32Decode(b: seq<byte>)
    requires |b| % 4 == 0
    ensures Encode32(Decode32(b)) == b
    decreases |b|
  {
    if |b| > 0 {
      Encode32Decode(b[4..]);
      WriteI32Read(b);
      assert b == b[..4] + b[4..];
    }
  }

  /** The as-written 16-bit decode is the in-order decode reversed. */
  lemma PushFrontReverses(b: seq<byte>)
    requires |b| % 2 == 0
    ensures Decode16PushFront(b, []) == Reverse(Decode16InOrder(b))
  {
    var r, d := Decode16PushFront(b, []), Decode16InOrder(b);
    assert |b| == 2 * |d|;
    forall i | 0 <= i < |r|
      ensures r[i] == Reverse(d)[i]
    {
      var j := |d| - 1 - i;
      PushFrontAt(b, [], i);
      assert Reverse(d)[i] == d[j] == ReadI16(b[2 * j..]);
      assert 2 * j == |b| - 2 - 2 * i;
    }
  }

  /** 32-bit decode then encode reproduces the chunk: tag, the byte count
      (truncated to 32 bits) and the very bytes decoded. */
  lemma RoundTrip32(bytes: seq<byte>)
    requires |bytes| % 4 == 0
    ensures ToBytes(FromBytes(32, bytes).value) == DataTag + U32Bytes(|bytes| % 0x1_0000_0000) + bytes
  {
    Encode32Decode(bytes);
  }

  /** 16-bit decode then encode as written emits the 2-byte chunks in
      reverse order: chunk k of the output is chunk n-1-k of the input. */
  lemma ReencodeReverses16(bytes: seq<byte>)
    requires |bytes| % 2 == 0
    ensures var out := ToBytes(FromBytes(16, bytes).value);
      |out| == 8 + |bytes| &&
      forall k :: 0 <= k < |bytes| / 2 ==>
        out[8 + 2 * k..8 + 2 * k + 2] == bytes[|bytes| - 2 - 2 * k..|bytes| - 2 * k]
  {
    var s := Decode16PushFront(bytes, []);
    var out := ToBytes(FromBytes(16, bytes).value);
    var e := Encode16(s);
    assert out[8..] == e;
    forall k | 0 <= k < |bytes| / 2
      ensures out[8 + 2 * k..8 + 2 * k + 2] == bytes[|bytes| - 2 - 2 * k..|bytes| - 2 * k]
    {
      ReversedChunk(bytes, k);
      assert out[8 + 2 * k..8 + 2 * k + 2] == e[2 * k..2 * k + 2];
    }
  }

  /** Chunk k of the re-encoded push-front decode is input chunk n-1-k. */
  lemma ReversedChunk(bytes: seq<byte>, k: nat)
    requires |bytes| % 2 == 0 && k < |bytes| / 2
    ensures |Encode16(Decode16PushFront(bytes, []))| == |bytes|
    ensures Encode16(Decode16PushFront(bytes, []))[2 * k..2 * k + 2] == bytes[|bytes| - 2 - 2 * k..|bytes| - 2 * k]
  {
    var s := Decode16PushFront(bytes, []);
    Encode16At(s, k);
    PushFrontAt(bytes, [], k);
    WriteI16Read(bytes[|bytes| - 2 - 2 * k..]);
  }

  /** The smallest input that shows the reversal: chunks [1,0] and [2,0]
      (the samples 1 and 2) decode as [2, 1]. */
  lemma Decode16ReversesExample()
    ensures FromBytes(16, [1, 0, 2, 0]) == Ok(Payload(I16bits([2, 1]), 4))
  {
    var b: seq<byte> := [1, 0, 2, 0];
    var r := Decode16PushFront(b, []);
    PushFrontAt(b, [], 0);
    PushFrontAt(b, [], 1);
    assert b[2..][..2] == [2, 0] && b[..2] == [1, 0];
    assert Decode([0]) == 0;
    assert Decode([2, 0]) == 2 && Decode([1, 0]) == 1;
    assert r == [2, 1];
  }

  /** With the intended decode, decode then encode reproduces the chunk at
      both bit depths. */
  lemma IntendedRoundTrip(bits: u16, bytes: seq<byte>)
    requires Decodable(bits, |bytes|)
    ensures ToBytes(FromBytesIntended(bits, bytes).value) == DataTag + U32Bytes(|bytes| % 0x1_0000_0000) + bytes
  {
    if bits == 16 { Encode16Decode16InOrder(bytes); } else { Encode32Decode(bytes); }
  }

  /** With the intended decode, decoding the samples a payload encodes
      recovers those samples, at the byte count they occupy. */
  lemma IntendedDecodeEncode(p: Payload)
    ensures FromBytesIntended(Bits(p.samples), EncodeSamples(p.samples))
      == Ok(p.(totalBytes := Count(p.samples) * Width(p.samples)))
  {
    match p.samples
    case I16bits(s) => Decode16InOrderEncode(s);
    case I32bits(s) => Decode32Encode(s);
  }
}
