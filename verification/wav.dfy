/** The WAVE file record and its whole-file codec (`Wav` in
    `src/audios/wav.rs`): the RIFF master chunk wrapping the `fmt ` header,
    opaque metadata bytes and the `data` payload. Reading and writing the
    file system is left to the caller; `Open` takes the bytes read and
    `SaveImage` gives the bytes written. */
module Wav {
  import opened LittleEndian
  import opened Outcomes
  import opened Samples
  import FileHeader
  import Payload
  import Volume

  datatype Wav = Wav(
    fileSize: u32,
    header: FileHeader.FileHeader,
    metada: seq<byte>,
    payload: Payload.Payload)

  /** ASCII "RIFF" */
  const RiffTag: seq<byte> := [82, 73, 70, 70]
  /** ASCII "WAVE" */
  const WaveTag: seq<byte> := [87, 65, 86, 69]

  /** Length of the fixed prefix `open` slices off: RIFF tag, size, WAVE
      tag, the 24-byte `fmt ` chunk, `data` tag and payload length. */
  const FixedPrefix := 44

  /** `usize as u32`: the low 32 bits, so the size itself whenever it fits. */
  function AsU32(n: nat): (r: u32)
    ensures r <= n
    ensures (n - r) % 0x1_0000_0000 == 0
    ensures n < 0x1_0000_0000 ==> r == n
  {
    n % 0x1_0000_0000
  }

  /** `Wav::open` after `read_to_end`, as written.
      NOTE: the header is decoded from `bytes[0..44]`, and `from_bytes`
      reads from offset 0 of that slice, that is from file offsets 0..20
      (the RIFF tag, the RIFF size, the WAVE tag, the "fmt " tag and the fmt
      chunk size), not from the fmt fields at offsets 16..36. The payload is
      everything from offset 44 on, and no metadata is kept. */
  function Open(bytes: seq<byte>): (r: Result<Wav>)
    ensures |bytes| < FixedPrefix ==> r == Err(SliceOutOfRange)
    ensures |bytes| >= FixedPrefix
      && Payload.FromBytes(FileHeader.FromBytes(bytes).value.bitsPerSample, bytes[FixedPrefix..]).Err?
      ==> r == Err(Payload.FromBytes(FileHeader.FromBytes(bytes).value.bitsPerSample, bytes[FixedPrefix..]).panic)
    ensures r.Ok? <==>
      && |bytes| >= FixedPrefix
      && Payload.Decodable(FileHeader.FromBytes(bytes).value.bitsPerSample, |bytes| - FixedPrefix)
      && AsU32(|bytes|) >= 8
    ensures r.Ok? ==> r.value.header == FileHeader.FromBytes(bytes).value
    ensures r.Ok? ==> r.value.metada == []
    ensures r.Ok? ==> r.value.payload.totalBytes == |bytes| - FixedPrefix
    ensures r.Ok? ==> Payload.FromBytes(r.value.header.bitsPerSample, bytes[FixedPrefix..]) == Ok(r.value.payload)
    ensures r.Ok? ==> r.value.fileSize == AsU32(|bytes|) - 8
  {
    if |bytes| < FixedPrefix then Err(SliceOutOfRange)
    else
      FileHeader.FromBytesReadsPrefix(bytes[0..FixedPrefix], bytes);
      var header := FileHeader.FromBytes(bytes[0..FixedPrefix]).value;
      var payload :- Payload.FromBytes(header.bitsPerSample, bytes[FixedPrefix..]);
      var size := AsU32(|bytes|);
      if size < 8 then Err(SizeUnderflow)
      else Ok(Wav(size - 8, header, [], payload))
  }

  /** The bytes `Wav::save` writes, in order: "RIFF", the stored file size,
      "WAVE", the header chunk, the metadata and the payload chunk. Neither
      size field is recomputed: both are written as stored. */
  function SaveImage(w: Wav): (r: seq<byte>)
    ensures |r| == FixedPrefix + |w.metada| + Count(w.payload.samples) * Width(w.payload.samples)
  {
    Frame(w) + Payload.ToBytes(w.payload)
  }

  /** Everything `save` writes before the payload chunk. */
  function Frame(w: Wav): (r: seq<byte>)
    ensures |r| == 36 + |w.metada|
  {
    RiffTag + U32Bytes(w.fileSize) + WaveTag + FileHeader.ToBytes(w.header) + w.metada
  }

  /** `Wav::set_volume`: a negative volume panics; otherwise every sample is
      rescaled and nothing else about the file changes. */
  function SetVolume(w: Wav, volume: real): (r: Result<Wav>)
    ensures r.Err? <==> volume < 0.0
    ensures r.Err? ==> r.panic == NegativeVolume
    ensures r.Ok? ==> r.value.fileSize == w.fileSize && r.value.header == w.header
    ensures r.Ok? ==> r.value.metada == w.metada && r.value.payload.totalBytes == w.payload.totalBytes
    ensures r.Ok? ==> r.value.payload.samples == Volume.ScaleBits(w.payload.samples, volume)
  {
    if volume < 0.0 then Err(NegativeVolume)
    else Ok(w.(payload := w.payload.(samples := Volume.ScaleBits(w.payload.samples, volume))))
  }

  /** Where each part sits in a saved image. */
  lemma SaveImageParts(w: Wav)
    ensures var img, m := SaveImage(w), |w.metada|;
      && img[..4] == RiffTag
      && img[4..8] == U32Bytes(w.fileSize)
      && img[8..12] == WaveTag
      && img[12..36] == FileHeader.ToBytes(w.header)
      && img[36..36 + m] == w.metada
      && img[36 + m..] == Payload.ToBytes(w.payload)
  {
    var img, m := SaveImage(w), |w.metada|;
    var k := RiffTag + U32Bytes(w.fileSize);
    var h := k + WaveTag;
    var g := h + FileHeader.ToBytes(w.header);
    var f := g + w.metada;
    assert f == Frame(w);
    assert img[..36 + m] == f && img[36 + m..] == Payload.ToBytes(w.payload);
    assert f[..36] == g && f[36..] == w.metada;
    assert g[..12] == h && g[12..] == FileHeader.ToBytes(w.header);
    assert h[..8] == k && h[8..] == WaveTag;
    assert k[..4] == RiffTag && k[4..] == U32Bytes(w.fileSize);
    assert img[..36] == g;
    assert img[..12] == h;
    assert img[..8] == k;
  }

  /** The RIFF size field of a saved image is the stored file size, written
      verbatim. */
  lemma SaveWritesFileSize(w: Wav)
    ensures ReadU32(SaveImage(w)[4..]) == w.fileSize
  {
    SaveImageParts(w);
    DecodeEncode(w.fileSize, 4);
    assert SaveImage(w)[4..][..4] == U32Bytes(w.fileSize);
  }

  /** The payload length field of a saved image is the cached byte count
      (truncated to 32 bits), whatever the samples now held. */
  lemma SaveWritesCachedLength(w: Wav)
    ensures ReadU32(SaveImage(w)[FixedPrefix - 4 + |w.metada|..]) == AsU32(w.payload.totalBytes)
  {
    SaveImageParts(w);
    var m := |w.metada|;
    assert SaveImage(w)[FixedPrefix - 4 + m..] == SaveImage(w)[36 + m..][4..];
  }

  // ---------------------------------------------------------------------
  // What the as-written `open` makes of a saved file

  /** The header a reader starting at file offset 0 decodes from a RIFF
      preamble with size field fs and fmt chunk size bs: the RIFF tag as
      `bloc_size`, the two halves of fs as format and channel count, the
      WAVE and "fmt " tags as frequency and byte rate, and the two halves of
      bs as block align and bit depth. */
  function PreambleHeader(fs: u32, bs: u32): FileHeader.FileHeader
  {
    FileHeader.FileHeader(
      0x4646_4952, fs % 0x1_0000, fs / 0x1_0000, 0x4556_4157, 0x2074_6D66,
      bs % 0x1_0000, bs / 0x1_0000)
  }

  /** The first 20 bytes of every saved image. */
  function Preamble(fs: u32, bs: u32): seq<byte>
  {
    RiffTag + U32Bytes(fs) + WaveTag + FileHeader.FmtTag + U32Bytes(bs)
  }

  lemma SavedPreamble(w: Wav)
    ensures SaveImage(w)[..20] == Preamble(w.fileSize, w.header.blocSize)
  {
    var img := SaveImage(w);
    var bs := w.header.blocSize;
    SaveImageParts(w);
    var fb := FileHeader.FieldBytes(w.header);
    var hb := FileHeader.ToBytes(w.header);
    assert fb[..4] == U32Bytes(bs) by {
      FileHeader.FieldBytesLayout(w.header);
    }
    assert hb[..8] == FileHeader.FmtTag + U32Bytes(bs) by {
      assert hb == FileHeader.FmtTag + fb;
    }
    assert img[12..20] == hb[..8];
    assert img[..20] == img[..4] + img[4..8] + img[8..12] + img[12..20];
  }

  /** The three leading tags, read as little-endian u32 values. */
  lemma RiffTagValue()
    ensures U32Bytes(0x4646_4952) == RiffTag
  {
    U32BytesLayout(0x4646_4952);
  }

  lemma WaveTagValue()
    ensures U32Bytes(0x4556_4157) == WaveTag
  {
    U32BytesLayout(0x4556_4157);
  }

  lemma FmtTagValue()
    ensures U32Bytes(0x2074_6D66) == FileHeader.FmtTag
  {
    U32BytesLayout(0x2074_6D66);
  }

  lemma PreambleFields(fs: u32, bs: u32)
    ensures FileHeader.FieldBytes(PreambleHeader(fs, bs)) == Preamble(fs, bs)
  {
    RiffTagValue();
    WaveTagValue();
    FmtTagValue();
    TagFields(0x4646_4952, 0x4556_4157, 0x2074_6D66, fs, bs);
  }

  /** PreambleFields with the tag values kept symbolic. */
  lemma TagFields(rv: u32, wv: u32, fv: u32, fs: u32, bs: u32)
    requires U32Bytes(rv) == RiffTag && U32Bytes(wv) == WaveTag && U32Bytes(fv) == FileHeader.FmtTag
    ensures FileHeader.FieldBytes(FileHeader.FileHeader(
      rv, fs % 0x1_0000, fs / 0x1_0000, wv, fv, bs % 0x1_0000, bs / 0x1_0000)) == Preamble(fs, bs)
  {
    var h := FileHeader.FileHeader(rv, fs % 0x1_0000, fs / 0x1_0000, wv, fv, bs % 0x1_0000, bs / 0x1_0000);
    var f1, f2 := U16Bytes(fs % 0x1_0000), U16Bytes(fs / 0x1_0000);
    var b1, b2 := U16Bytes(bs % 0x1_0000), U16Bytes(bs / 0x1_0000);
    FileHeader.FieldBytesLayout(h);
    U32Halves(fs);
    U32Halves(bs);
    Regroup(RiffTag, f1, f2, WaveTag, FileHeader.FmtTag, b1, b2);
  }

  lemma Regroup<T>(a: seq<T>, b: seq<T>, c: seq<T>, d: seq<T>, e: seq<T>, f: seq<T>, g: seq<T>)
    ensures a + b + c + d + e + f + g == a + (b + c) + d + e + (f + g)
  {
  }

  /** The header `open` decodes from any saved image is built from the RIFF
      preamble, not from the fmt fields. */
  lemma OpenReadsPreamble(w: Wav)
    ensures FileHeader.FromBytes(SaveImage(w)).Ok?
    ensures FileHeader.FromBytes(SaveImage(w)).value == PreambleHeader(w.fileSize, w.header.blocSize)
  {
    SavedPreamble(w);
    PreambleFields(w.fileSize, w.header.blocSize);
    FileHeader.FieldBytesInjective(FileHeader.FromBytes(SaveImage(w)).value,
      PreambleHeader(w.fileSize, w.header.blocSize));
  }

  /** A saved file whose fmt chunk size is below 2^16, as in every real
      file (the canonical PCM size is 16), cannot be reopened: the bit depth
      is read from the upper half of that size, 0, and the payload decoder
      panics. */
  lemma SavedFileFailsToOpen(w: Wav)
    requires w.header.blocSize < 0x1_0000
    ensures Open(SaveImage(w)) == Err(UnsupportedBitDepth(0))
  {
    var img := SaveImage(w);
    OpenReadsPreamble(w);
    assert FileHeader.FromBytes(img).value.bitsPerSample == 0;
    OpenOfDepthZero(img);
  }

  /** A file whose header, as `open` reads it, claims bit depth 0. */
  lemma OpenOfDepthZero(bytes: seq<byte>)
    requires |bytes| >= FixedPrefix && FileHeader.FromBytes(bytes).value.bitsPerSample == 0
    ensures Open(bytes) == Err(UnsupportedBitDepth(0))
  {
    assert Payload.FromBytes(0, bytes[FixedPrefix..]) == Err(UnsupportedBitDepth(0));
  }

  // ---------------------------------------------------------------------
  // The evidently intended `open`

  /** `open` with the header decoded from the fmt fields (file offsets
      16..36, right after the "fmt " tag) and the 16-bit samples kept in
      file order. */
  function OpenIntended(bytes: seq<byte>): (r: Result<Wav>)
    ensures |bytes| < FixedPrefix ==> r == Err(SliceOutOfRange)
    ensures |bytes| >= FixedPrefix
      && Payload.FromBytesIntended(FileHeader.FromBytes(bytes[16..]).value.bitsPerSample, bytes[FixedPrefix..]).Err?
      ==> r == Err(Payload.FromBytesIntended(FileHeader.FromBytes(bytes[16..]).value.bitsPerSample, bytes[FixedPrefix..]).panic)
    ensures r.Ok? <==>
      && |bytes| >= FixedPrefix
      && Payload.Decodable(FileHeader.FromBytes(bytes[16..]).value.bitsPerSample, |bytes| - FixedPrefix)
      && AsU32(|bytes|) >= 8
    ensures r.Ok? ==> r.value.header == FileHeader.FromBytes(bytes[16..]).value
    ensures r.Ok? ==> r.value.metada == []
    ensures r.Ok? ==> r.value.payload.totalBytes == |bytes| - FixedPrefix
    ensures r.Ok? ==> Payload.FromBytesIntended(r.value.header.bitsPerSample, bytes[FixedPrefix..]) == Ok(r.value.payload)
    ensures r.Ok? ==> r.value.fileSize == AsU32(|bytes|) - 8
  {
    if |bytes| < FixedPrefix then Err(SliceOutOfRange)
    else
      FileHeader.FromBytesReadsPrefix(bytes[16..36], bytes[16..]);
      var header := FileHeader.FromBytes(bytes[16..36]).value;
      var payload :- Payload.FromBytesIntended(header.bitsPerSample, bytes[FixedPrefix..]);
      var size := AsU32(|bytes|);
      if size < 8 then Err(SizeUnderflow)
      else Ok(Wav(size - 8, header, [], payload))
  }

  /** A record `save` can write and the intended `open` can read back: no
      metadata (`open` never keeps any), a bit depth that matches the sample
      variant, a cached byte count that matches the samples, and a file
      small enough for its size to fit a u32. */
  predicate Canonical(w: Wav)
  {
    && w.metada == []
    && w.header.bitsPerSample == Bits(w.payload.samples)
    && w.payload.totalBytes == Count(w.payload.samples) * Width(w.payload.samples)
    && FixedPrefix + w.payload.totalBytes < 0x1_0000_0000
  }

  /** Saving a canonical record and opening the image with the intended
      `open` gives back the record, with the file size set to the image
      length minus 8. */
  lemma IntendedRoundTrip(w: Wav)
    requires Canonical(w)
    ensures OpenIntended(SaveImage(w)) == Ok(w.(fileSize := |SaveImage(w)| - 8))
  {
    var img := SaveImage(w);
    var h, p := w.header, w.payload;
    assert |img| == FixedPrefix + p.totalBytes;
    SaveImageParts(w);
    assert img[16..36] == FileHeader.ToBytes(h)[4..];
    FileHeader.RoundTrip(h);
    assert img[FixedPrefix..] == Payload.ToBytes(p)[8..];
    Payload.IntendedDecodeEncode(p);
    assert p.(totalBytes := Count(p.samples) * Width(p.samples)) == p;
    OpenIntendedParts(img, h, p);
    assert w.(fileSize := |img| - 8) == Wav(|img| - 8, h, [], p);
  }

  /** What the intended `open` returns, given what its two decoders return. */
  lemma OpenIntendedParts(bytes: seq<byte>, h: FileHeader.FileHeader, p: Payload.Payload)
    requires |bytes| >= FixedPrefix && AsU32(|bytes|) >= 8
    requires FileHeader.FromBytes(bytes[16..36]) == Ok(h)
    requires Payload.FromBytesIntended(h.bitsPerSample, bytes[FixedPrefix..]) == Ok(p)
    ensures OpenIntended(bytes) == Ok(Wav(AsU32(|bytes|) - 8, h, [], p))
  {
  }

  /** A file image laid out as `save` lays it out: the four tags where they
      belong and both size fields equal to what they measure. */
  predicate WellFramed(bytes: seq<byte>)
  {
    && FixedPrefix <= |bytes| < 0x1_0000_0000
    && bytes[..4] == RiffTag
    && ReadU32(bytes[4..]) == |bytes| - 8
    && bytes[8..12] == WaveTag
    && bytes[12..16] == FileHeader.FmtTag
    && bytes[36..40] == Payload.DataTag
    && ReadU32(bytes[40..]) == |bytes| - FixedPrefix
  }

  /** Opening a well-framed image with the intended `open` and saving the
      record reproduces the image byte for byte. */
  lemma IntendedSaveOfOpen(bytes: seq<byte>)
    requires WellFramed(bytes) && OpenIntended(bytes).Ok?
    ensures SaveImage(OpenIntended(bytes).value) == bytes
  {
    var w := OpenIntended(bytes).value;
    var n := |bytes|;
    FileHeader.FromBytesReadsPrefix(bytes[16..36], bytes[16..]);
    var h := FileHeader.FromBytes(bytes[16..36]).value;
    assert Payload.Decodable(h.bitsPerSample, |bytes[FixedPrefix..]|);
    var p := Payload.FromBytesIntended(h.bitsPerSample, bytes[FixedPrefix..]).value;
    OpenIntendedParts(bytes, h, p);
    SizeFieldOf(bytes);
    FrameOfImage(bytes, h);
    LengthFieldOf(bytes);
    PayloadOfImage(bytes, h.bitsPerSample, p);
    assert Frame(w) == Frame(Wav(n - 8, h, [], Payload.Payload(Samples.I16bits([]), 0)));
    SplitAt(bytes, 36);
  }

  /** The frame `save` writes for a record with no metadata is the first 36
      bytes of an image that carries the tags where they belong, the record's
      file size in the RIFF size field and the record's header encoded in
      its fmt fields. */
  lemma FrameOfImage(bytes: seq<byte>, h: FileHeader.FileHeader)
    requires 36 <= |bytes| < 0x1_0000_0008
    requires bytes[..4] == RiffTag && bytes[4..8] == U32Bytes(|bytes| - 8)
    requires bytes[8..12] == WaveTag && bytes[12..16] == FileHeader.FmtTag
    requires FileHeader.FromBytes(bytes[16..36]) == Ok(h)
    ensures Frame(Wav(|bytes| - 8, h, [], Payload.Payload(Samples.I16bits([]), 0))) == bytes[..36]
  {
    var w := Wav(|bytes| - 8, h, [], Payload.Payload(Samples.I16bits([]), 0));
    HeaderChunkOf(bytes, h);
    var a, b, c, d := bytes[..4], bytes[4..8], bytes[8..12], bytes[12..36];
    assert Frame(w) == a + b + c + d + [];
    JoinFrame(bytes, a, b, c, d);
  }

  /** The RIFF size field of a well-framed image, written back. */
  lemma SizeFieldOf(bytes: seq<byte>)
    requires 8 <= |bytes| < 0x1_0000_0008 && ReadU32(bytes[4..]) == |bytes| - 8
    ensures U32Bytes(|bytes| - 8) == bytes[4..8]
  {
    WriteU32Read(bytes[4..]);
  }

  /** The fmt chunk of an image, written back from the header decoded from
      its fields. */
  lemma HeaderChunkOf(bytes: seq<byte>, h: FileHeader.FileHeader)
    requires |bytes| >= 36 && bytes[12..16] == FileHeader.FmtTag
    requires FileHeader.FromBytes(bytes[16..36]) == Ok(h)
    ensures FileHeader.ToBytes(h) == bytes[12..36]
  {
    SplitAt(bytes[12..36], 4);
  }

  /** The payload chunk `save` writes for a payload the intended decoder
      returns is the image from offset 36 on, when the image carries the
      data tag and the payload's length in the length field. */
  lemma PayloadOfImage(bytes: seq<byte>, bits: u16, p: Payload.Payload)
    requires FixedPrefix <= |bytes| < 0x1_0000_0000
    requires bytes[36..40] == Payload.DataTag && bytes[40..44] == U32Bytes(|bytes| - FixedPrefix)
    requires Payload.FromBytesIntended(bits, bytes[FixedPrefix..]) == Ok(p)
    ensures Payload.ToBytes(p) == bytes[36..]
  {
    var b := bytes[FixedPrefix..];
    Payload.IntendedRoundTrip(bits, b);
    assert AsU32(|b|) == |b|;
    SplitTail(bytes);
  }

  /** The payload length field of a well-framed image, written back. */
  lemma LengthFieldOf(bytes: seq<byte>)
    requires FixedPrefix <= |bytes| < 0x1_0000_0000 && ReadU32(bytes[40..]) == |bytes| - FixedPrefix
    ensures U32Bytes(|bytes| - FixedPrefix) == bytes[40..44]
  {
    WriteU32Read(bytes[40..]);
  }

  /** A sequence is its first k elements followed by the rest. */
  lemma SplitAt<T>(s: seq<T>, k: nat)
    requires k <= |s|
    ensures s == s[..k] + s[k..]
  {
  }

  /** The fixed part of a buffer of at least 36 bytes, field by field. */
  lemma JoinFrame<T>(s: seq<T>, a: seq<T>, b: seq<T>, c: seq<T>, d: seq<T>)
    requires |s| >= 36
    requires a == s[..4] && b == s[4..8] && c == s[8..12] && d == s[12..36]
    ensures a + b + c + d + [] == s[..36]
  {
    assert s[..36] == s[..12] + s[12..36];
    assert s[..12] == s[..8] + s[8..12];
    assert s[..8] == s[..4] + s[4..8];
  }

  /** The part of a buffer of at least 44 bytes from offset 36 on: tag,
      length field and samples. */
  lemma SplitTail<T>(s: seq<T>)
    requires |s| >= FixedPrefix
    ensures s[36..] == s[36..40] + s[40..44] + s[FixedPrefix..]
  {
    assert s[36..] == s[36..44] + s[44..];
    assert s[36..44] == s[36..40] + s[40..44];
  }

  // ---------------------------------------------------------------------
  // Properties of `set_volume`

  /** Changing the volume leaves every byte of the saved image before the
      samples as it was, and the image length too. */
  lemma SetVolumeKeepsFraming(w: Wav, volume: real)
    requires volume >= 0.0
    ensures var v := SetVolume(w, volume).value;
      && |SaveImage(v)| == |SaveImage(w)|
      && SaveImage(v)[..FixedPrefix + |w.metada|] == SaveImage(w)[..FixedPrefix + |w.metada|]
  {
    var v := SetVolume(w, volume).value;
    var m := |w.metada|;
    assert Frame(v) == Frame(w);
    Payload.ToBytesHead(w.payload);
    Payload.ToBytesHead(v.payload);
    assert SaveImage(v)[..FixedPrefix + m] == Frame(w) + Payload.ToBytes(v.payload)[..8];
    assert SaveImage(w)[..FixedPrefix + m] == Frame(w) + Payload.ToBytes(w.payload)[..8];
  }

  /** A volume of 1.0 changes nothing, for 16-bit samples and for 32-bit
      samples of magnitude at most 2^24 (the integers an `f32` holds
      exactly, so that the conversion before the multiply loses nothing). */
  lemma SetVolumeUnity(w: Wav)
    requires w.payload.samples.I32bits? ==>
      forall i :: 0 <= i < |w.payload.samples.s32| ==> -0x100_0000 <= w.payload.samples.s32[i] <= 0x100_0000
    ensures SetVolume(w, 1.0) == Ok(w)
  {
    match w.payload.samples
    case I16bits(s) =>
      var t := Volume.ScaleBits(w.payload.samples, 1.0).s16;
      forall i | 0 <= i < |s| ensures t[i] == s[i] {
        Volume.ScaleUnity(s[i], I16Min, I16Max);
      }
      assert t == s;
    case I32bits(s) =>
      var t := Volume.ScaleBits(w.payload.samples, 1.0).s32;
      forall i | 0 <= i < |s| ensures t[i] == s[i] {
        Volume.ScaleUnity(s[i], I32Min, I32Max);
      }
      assert t == s;
  }

  /** A mono 16-bit file holding [100, -100, 32767, -32768], doubled, holds
      [200, -200, 32767, -32768]: the two extremes saturate. */
  lemma SetVolumeDoublesAndSaturates(w: Wav)
    requires w.payload.samples == I16bits([100, -100, 32767, -32768])
    ensures SetVolume(w, 2.0).value.payload.samples == I16bits([200, -200, 32767, -32768])
  {
    Volume.ScaleSaturates(2.0, I16Min, I16Max);
    var t := SetVolume(w, 2.0).value.payload.samples.s16;
    assert t[0] == 200 && t[1] == -200;
    assert t == [200, -200, 32767, -32768];
  }
}
