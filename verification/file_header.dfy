/** The `fmt ` sub-chunk of a WAVE file (`FileHeader` in `src/audios/wav.rs`). */
module FileHeader {
  import opened LittleEndian
  import opened Outcomes

  /** The seven fields, in the order they are stored. */
  datatype FileHeader = FileHeader(
    blocSize: u32,
    audioFormat: u16,
    nbrChannels: u16,
    frequency: u32,
    bytePerSec: u32,
    bytePerBloc: u16,
    bitsPerSample: u16)

  /** ASCII "fmt " */
  const FmtTag: seq<byte> := [102, 109, 116, 32]

  /** Bytes one encoded header occupies: the tag plus the fields. */
  const EncodedSize := 24

  /** Bytes of the seven fields. */
  const FieldsSize := 20

  /** The widths of the seven fields, in the order they are stored. */
  const Widths: seq<nat> := [4, 2, 2, 4, 4, 2, 2]

  /** The seven fields take 20 bytes. */
  lemma WidthsSum()
    ensures Sum(Widths) == FieldsSize
  {
    assert Widths[1..] == [2, 2, 4, 4, 2, 2];
    assert Widths[1..][1..] == [2, 4, 4, 2, 2];
    assert Widths[1..][1..][1..] == [4, 4, 2, 2];
    assert Widths[1..][1..][1..][1..] == [4, 2, 2];
    assert Widths[1..][1..][1..][1..][1..] == [2, 2];
    assert Widths[1..][1..][1..][1..][1..][1..] == [2];
    assert Widths[1..][1..][1..][1..][1..][1..][1..] == [];
  }

  /** The fields of a header, in the order they are stored. */
  function Values(h: FileHeader): (r: seq<nat>)
    ensures Fits(r, Widths)
  {
    [h.blocSize, h.audioFormat, h.nbrChannels, h.frequency, h.bytePerSec, h.bytePerBloc, h.bitsPerSample]
  }

  /** The header whose fields, in stored order, are v. */
  function FromValues(v: seq<nat>): (h: FileHeader)
    requires Fits(v, Widths)
    ensures Values(h) == v
  {
    assert v[0] < Pow256(4) && v[3] < Pow256(4) && v[4] < Pow256(4);
    assert v[1] < Pow256(2) && v[2] < Pow256(2) && v[5] < Pow256(2) && v[6] < Pow256(2);
    FileHeader(v[0], v[1], v[2], v[3], v[4], v[5], v[6])
  }

  /** `FileHeader::from_bytes`: seven little-endian reads through a cursor
      that starts at offset 0 of the slice; no tag is read. A read past the
      end panics. The decoded header is exactly the one whose encoding
      carries the 20 bytes read, after the tag. */
  function FromBytes(bytes: seq<byte>): (r: Result<FileHeader>)
    ensures r.Ok? <==> |bytes| >= FieldsSize
    ensures r.Err? ==> r.panic == ReadPastEnd
    ensures r.Ok? ==> FieldBytes(r.value) == bytes[..FieldsSize]
  {
    if |bytes| < FieldsSize then Err(ReadPastEnd)
    else Ok(ReadFields(bytes))
  }

  /** The reads of `from_bytes`, each one starting where the previous one
      left the cursor. Writing the header read back out restores the 20
      bytes it was read from. */
  function ReadFields(c: seq<byte>): (r: FileHeader)
    requires |c| >= FieldsSize
    ensures FieldBytes(r) == c[..FieldsSize]
  {
    WidthsSum();
    DecodeFieldsFit(c, Widths);
    EncodeFieldsRead(c, Widths);
    FromValues(DecodeFields(c, Widths))
  }

  /** `FileHeader::to_bytes`: the literal tag, then the seven fields. Writing
      into a `Vec` cannot fail, so the `io::Result` is always `Ok`. */
  function ToBytes(h: FileHeader): (r: seq<byte>)
    ensures |r| == EncodedSize
    ensures r[..4] == FmtTag
  {
    FmtTag + FieldBytes(h)
  }

  /** The seven little-endian writes after the tag: 20 bytes that a cursor
      reads back as the header's fields. */
  function FieldBytes(h: FileHeader): (r: seq<byte>)
    ensures |r| == FieldsSize
    ensures DecodeFields(r, Widths) == Values(h)
  {
    WidthsSum();
    DecodeFieldsWritten(Values(h), Widths, []);
    assert EncodeFields(Values(h), Widths) + [] == EncodeFields(Values(h), Widths);
    EncodeFields(Values(h), Widths)
  }

  /** Reading the fields back from their encoding, with anything after it,
      yields the header. */
  lemma ReadFieldsWritten(h: FileHeader, rest: seq<byte>)
    ensures ReadFields(FieldBytes(h) + rest) == h
  {
    DecodeFieldsWritten(Values(h), Widths, rest);
  }

  /** Decoding the field part of an encoding (the tag is written but not
      read back) returns the header encoded: the tag is implicit on read and
      explicit on write. */
  lemma RoundTrip(h: FileHeader)
    ensures FromBytes(ToBytes(h)[4..]) == Ok(h)
  {
    assert ToBytes(h)[4..] == FieldBytes(h) + [];
    ReadFieldsWritten(h, []);
  }

  /** The field bytes are the seven fields written one after the other, in
      the widths of their types. */
  lemma FieldBytesLayout(h: FileHeader)
    ensures FieldBytes(h) == U32Bytes(h.blocSize) + U16Bytes(h.audioFormat) + U16Bytes(h.nbrChannels)
      + U32Bytes(h.frequency) + U32Bytes(h.bytePerSec) + U16Bytes(h.bytePerBloc) + U16Bytes(h.bitsPerSample)
  {
    EncodeSevenFields(Values(h), Widths);
  }

  /** Distinct headers have distinct field encodings. */
  lemma FieldBytesInjective(h: FileHeader, g: FileHeader)
    requires FieldBytes(h) == FieldBytes(g)
    ensures h == g
  {
    EncodeFieldsInjective(Values(h), Values(g), Widths);
  }

  /** Only the first 20 bytes of the input matter. */
  lemma FromBytesReadsPrefix(a: seq<byte>, b: seq<byte>)
    requires |a| >= FieldsSize && |b| >= FieldsSize && a[..FieldsSize] == b[..FieldsSize]
    ensures FromBytes(a) == FromBytes(b)
  {
    FieldBytesInjective(FromBytes(a).value, FromBytes(b).value);
  }
}
