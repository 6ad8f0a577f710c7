# RIFF/WAVE byte codec of `src/audios/wav.rs`, in Dafny

This project models the pure byte-level part of the WAVE implementation in
`src/audios/wav.rs`:

- the `fmt ` sub-chunk record `FileHeader`, with `from_bytes` and `to_bytes`;
- the `data` sub-chunk record `Payload`, with `from_bytes` and `to_bytes`,
  over the closed sample variant `SampleBits` (`I16bits` | `I32bits`) from
  `src/audios/mod.rs`;
- the `Wav` record, with the record `open` builds from the bytes it read,
  the byte image `save` writes, and the structural contract of `set_volume`.

Bytes are `seq<byte>` with `byte = 0..255`. The `byteorder` readers and
writers are one little-endian encoder and decoder generic in the width,
plus two's complement for the signed types (module `LittleEndian`). The
cursor that `from_bytes` reads seven fields through is a generic reader of
fixed-width field records, `DecodeFields`, with its writer `EncodeFields`.

Every `unwrap`, `panic!`, out-of-range slice and checked subtraction that
can fail becomes an `Err(Panic)` value (module `Outcomes`). The error paths
are therefore stated in the contracts rather than excluded by
preconditions.

The model follows the code as written. Three places where the code does not
do what a WAVE codec is usually expected to do are kept as written:

- `open` decodes the header from file offsets 0..20, not from the fmt fields.
- 16-bit samples are decoded in reverse chunk order.
- `save` writes both size fields as cached, without recomputing them.

The first two are reported under "Findings" below, each next to a corrected
definition with its round trip proved. The third is stated as a property:
see `Payload.ToBytes` and `Wav.SaveWritesFileSize`.

A WAVE codec is usually also expected to validate the `RIFF` and `WAVE`
tags, to scan for the `data` tag and keep the chunks before it as metadata,
to recompute both size fields on save, and to report errors as values
rather than panicking. `wav.rs` does none of these, so the model does not
either.

Modules:

| file | module | models |
|---|---|---|
| `outcomes.dfy` | `Outcomes` | the panics, as a `Result` |
| `little_endian.dfy` | `LittleEndian` | `byteorder` LE reads and writes; field records |
| `samples.dfy` | `Samples` | `SampleBits` |
| `file_header.dfy` | `FileHeader` | `FileHeader::{from_bytes,to_bytes}` |
| `payload.dfy` | `Payload` | `Payload::{from_bytes,to_bytes}` |
| `volume.dfy` | `Volume` | the per-sample arithmetic of `set_volume` |
| `wav.dfy` | `Wav` | `open`, the image `save` writes, `set_volume` |

## Model

| member | source | states |
|---|---|---|
| LittleEndian.Encode | src/audios/wav.rs:58-64 | writing an unsigned value below 256^n takes exactly n bytes |
| LittleEndian.Decode | src/audios/wav.rs:44-50 | the unsigned value read from n bytes is below 256^n |
| LittleEndian.U16Bytes | src/audios/wav.rs:59-60 | `write_u16` emits two bytes whose little-endian value is the value written |
| LittleEndian.U32Bytes | src/audios/wav.rs:58 | `write_u32` emits four bytes whose little-endian value is the value written |
| LittleEndian.ReadU32 | src/audios/wav.rs:44 | `read_u32` of a buffer is its first byte plus 2^8 times the second, 2^16 times the third and 2^24 times the fourth |
| LittleEndian.I16Bytes | src/audios/wav.rs:117 | `write_i16` emits two bytes whose unsigned value is the sample modulo 2^16 |
| LittleEndian.I32Bytes | src/audios/wav.rs:123 | `write_i32` emits four bytes whose unsigned value is the sample modulo 2^32 |
| LittleEndian.ReadI16 | src/audios/wav.rs:84-85 | `read_i16` of a buffer is its first byte plus 2^8 times the second, less 2^16 when the top bit of the second byte is set |
| LittleEndian.ReadI32 | src/audios/wav.rs:94-95 | `read_i32` of a buffer is its four bytes least significant first, less 2^32 when the top bit of the fourth byte is set |
| LittleEndian.DecodeEncode | src/audios/wav.rs:58-64 | reading back the n little-endian bytes written for a value below 256^n gives that value |
| LittleEndian.EncodeDecode | src/audios/wav.rs:44-50 | writing back the value read from n bytes reproduces those n bytes, so the encoding is a bijection |
| LittleEndian.DecodeInjective | src/audios/wav.rs:44-50 | two equal-length byte strings that read as the same value are equal |
| LittleEndian.U32Halves | src/audios/wav.rs:44-46 | a u32 written little-endian is its low 16-bit half followed by its high half, so two u16 reads at its offset return the halves |
| LittleEndian.U32BytesLayout | src/audios/wav.rs:58 | the four bytes of a written u32, least significant first |
| LittleEndian.DecodeAppend | src/audios/wav.rs:41-50 | the value of a concatenation is the first part's value plus the second part's value shifted up by the first part's length |
| LittleEndian.ReadU32Written | src/audios/wav.rs:44 | `read_u32` from the front of what `write_u32` wrote, whatever follows, returns the value written |
| LittleEndian.ReadI16Written | src/audios/wav.rs:85 | `read_i16` from the front of what `write_i16` wrote returns the signed value written |
| LittleEndian.ReadI32Written | src/audios/wav.rs:95 | `read_i32` from the front of what `write_i32` wrote returns the signed value written |
| LittleEndian.WriteU32Read | src/audios/wav.rs:58 | writing back the u32 read from a buffer reproduces its first four bytes |
| LittleEndian.WriteI16Read | src/audios/wav.rs:117 | writing back the i16 read from a buffer reproduces its first two bytes |
| LittleEndian.WriteI32Read | src/audios/wav.rs:123 | writing back the i32 read from a buffer reproduces its first four bytes |
| LittleEndian.ToUnsigned | src/audios/wav.rs:117 | the two's-complement pattern of an in-range signed value fits n bytes |
| LittleEndian.ToSigned | src/audios/wav.rs:85 | the signed reading of an n-byte pattern lies in the signed range of n bytes |
| LittleEndian.EncodeFields | src/audios/wav.rs:58-64 | writing fields one after the other, each little-endian in its width, takes the sum of the widths in bytes |
| LittleEndian.DecodeFields | src/audios/wav.rs:41-50 | a cursor read of fields of the given widths yields one value per field |
| LittleEndian.DecodeFieldsFit | src/audios/wav.rs:41-50 | every field the cursor reads fits the width it was read in |
| LittleEndian.DecodeFieldsWritten | src/audios/wav.rs:41-50 | reading fields through a cursor from what was written for them, whatever follows, returns the values written |
| LittleEndian.EncodeFieldsRead | src/audios/wav.rs:54-64 | writing back the fields read from a buffer reproduces the bytes they were read from |
| LittleEndian.EncodeFieldsInjective | src/audios/wav.rs:54-64 | field records of the same widths encode alike only if equal |
| FileHeader.FromBytes | src/audios/wav.rs:40-52 | succeeds exactly when at least 20 bytes are given and panics on a short read otherwise; the header read is the one whose seven fields encode to the first 20 bytes, with no tag consumed |
| FileHeader.ToBytes | src/audios/wav.rs:54-67 | always exactly 24 bytes, starting with the literal "fmt " |
| FileHeader.FieldBytesLayout | src/audios/wav.rs:58-64 | after the tag come the seven fields little-endian in declaration order, in widths 4, 2, 2, 4, 4, 2, 2 |
| FileHeader.FromValues | src/audios/wav.rs:43-51 | the header built from seven in-range values has those values as its fields, in stored order |
| FileHeader.ReadFields | src/audios/wav.rs:41-51 | the header read through the cursor, written back field by field, is exactly the 20 bytes it was read from |
| FileHeader.FieldBytes | src/audios/wav.rs:58-64 | the seven field writes take 20 bytes, and a cursor reading fields of widths 4, 2, 2, 4, 4, 2, 2 from them gets the header's fields back in declaration order |
| FileHeader.RoundTrip | src/audios/wav.rs:40-67 | reading the 20 bytes after the tag of an encoding gives back the header: the tag is explicit on write and implicit on read |
| FileHeader.ReadFieldsWritten | src/audios/wav.rs:40-67 | reading the fields back from their encoding, with anything after it, gives the header |
| FileHeader.FieldBytesInjective | src/audios/wav.rs:54-67 | distinct headers have distinct encodings |
| FileHeader.FromBytesReadsPrefix | src/audios/wav.rs:40-52 | the result depends only on the first 20 bytes of the input |
| FileHeader.WidthsSum | src/audios/wav.rs:44-50 | the seven fields take 20 bytes |
| Payload.FromBytes | src/audios/wav.rs:79-107 | succeeds exactly when the bit depth is 16 with an even byte count or 32 with a byte count divisible by 4; any other depth panics with that depth, and a short last chunk panics on the read; on success the variant matches the depth and total_bytes is the input length, which equals count times width |
| Payload.Decode16PushFront | src/audios/wav.rs:81-88 | pushing every 2-byte chunk onto the front of the deque adds one sample per chunk |
| Payload.PushFrontAt | src/audios/wav.rs:81-88 | sample i of the push-front decode is chunk n-1-i, and the samples already in the deque follow |
| Payload.PushFrontReverses | src/audios/wav.rs:81-88 | the as-written 16-bit decode is the in-order decode reversed |
| Payload.Decode16InOrder | src/audios/wav.rs:81-88 | sample i is the little-endian i16 of bytes 2i..2i+2 |
| Payload.Decode32 | src/audios/wav.rs:91-98 | sample i is the little-endian i32 of bytes 4i..4i+4, in order |
| Payload.Encode16 | src/audios/wav.rs:115-119 | two bytes per 16-bit sample |
| Payload.Encode32 | src/audios/wav.rs:121-125 | four bytes per 32-bit sample |
| Payload.EncodeSamples | src/audios/wav.rs:114-126 | count times width bytes of samples |
| Payload.Encode16Append | src/audios/wav.rs:116-118 | writing samples in sequence distributes over concatenation |
| Payload.Encode16At | src/audios/wav.rs:116-118 | sample k is written at bytes 2k..2k+2 |
| Payload.Decode16InOrderEncode | src/audios/wav.rs:115-119 | in-order 16-bit decoding of the written samples gives them back |
| Payload.Encode16Decode16InOrder | src/audios/wav.rs:81-88 | writing the in-order decode of a 16-bit chunk sequence reproduces the bytes |
| Payload.Decode32Encode | src/audios/wav.rs:121-125 | 32-bit decoding of the written samples gives them back |
| Payload.Encode32Decode | src/audios/wav.rs:91-98 | writing the 32-bit decode of a byte string reproduces it |
| Payload.LengthFieldTruncates | src/audios/wav.rs:112 | `total_bytes as u32` is at most the byte count, differs from it by a multiple of 2^32, and equals it whenever it is below 2^32 |
| Payload.ToBytes | src/audios/wav.rs:109-129 | 8 + count*width bytes: the "data" tag, then the cached total_bytes as a truncated u32 whatever the number of samples held, then every sample in order |
| Payload.ToBytesHead | src/audios/wav.rs:111-112 | the first eight bytes depend on the cached byte count alone |
| Payload.RoundTrip32 | src/audios/wav.rs:91-129 | decoding 32-bit samples and encoding the payload gives "data", the input length and the input bytes unchanged |
| Payload.ReencodeReverses16 | src/audios/wav.rs:81-119 | decoding 16-bit samples and encoding the payload emits chunk n-1-k of the input as chunk k |
| Payload.Decode16ReversesExample | src/audios/wav.rs:83-88 | the 16-bit samples 1, 2 decode as [2, 1] |
| Payload.FromBytesIntended | src/audios/wav.rs:79-107 | the same success, error and size contract as `from_bytes`, with 16-bit samples kept in chunk order |
| Payload.IntendedRoundTrip | src/audios/wav.rs:79-129 | with in-order decoding, decode then encode reproduces the chunk at both depths |
| Payload.IntendedDecodeEncode | src/audios/wav.rs:79-129 | with in-order decoding, the samples a payload writes decode back to that payload at its true byte count |
| Volume.Trunc | src/audios/wav.rs:196 | the float-to-integer `as` rounds toward zero: the result is within 1 of its argument, on the side of zero |
| Volume.Clamp | src/audios/wav.rs:196 | `clamp` returns a value in [lo, hi], returns its argument when that is in range, and otherwise returns the bound it crossed |
| Volume.ScaleSample | src/audios/wav.rs:193-196 | a rescaled sample always lies within the bounds of its type: the scaling saturates, it never wraps |
| Volume.ScaleBits | src/audios/wav.rs:190-208 | rescaling keeps the sample variant and the sample count, and replaces sample i by that sample scaled, clamped to the bounds of its type and truncated |
| Volume.TruncMonotone | src/audios/wav.rs:196 | the float-to-integer conversion is monotone |
| Volume.ScaleUnity | src/audios/wav.rs:193-196 | volume 1.0 leaves an in-range sample unchanged |
| Volume.ScaleZero | src/audios/wav.rs:193-196 | volume 0.0 silences any sample |
| Volume.ScaleMonotone | src/audios/wav.rs:193-196 | a louder volume moves every sample away from zero or leaves it |
| Volume.ScaleSaturates | src/audios/wav.rs:196 | amplified extremes stay at the bounds of the type |
| Wav.Open | src/audios/wav.rs:134-152 | fewer than 44 bytes panic on the slice; a payload panic propagates; otherwise it succeeds exactly when the header read from offset 0 gives a decodable depth and the size cast leaves at least 8; the record has that header, no metadata, the payload `from_bytes` decodes from offset 44 with that depth, total_bytes = length - 44 and file_size = length - 8 |
| Wav.AsU32 | src/audios/wav.rs:147 | `size as u32` keeps the low 32 bits: it is at most the size, differs from it by a multiple of 2^32, and is the size itself whenever it is below 2^32 |
| Wav.SaveImage | src/audios/wav.rs:154-171 | the image is 44 + metadata + count*width bytes long |
| Wav.Frame | src/audios/wav.rs:161-166 | everything before the payload chunk is 36 + metadata bytes |
| Wav.SaveImageParts | src/audios/wav.rs:161-167 | "RIFF", the stored file_size, "WAVE", the 24-byte fmt chunk, the metadata and the payload chunk sit at offsets 0, 4, 8, 12, 36 and 36 + metadata |
| Wav.SaveWritesFileSize | src/audios/wav.rs:162 | the RIFF size field reads back as the stored file_size, never recomputed |
| Wav.SaveWritesCachedLength | src/audios/wav.rs:167 | the data length field reads back as the cached total_bytes truncated to 32 bits |
| Wav.SavedPreamble | src/audios/wav.rs:161-165 | the first 20 bytes of every image are "RIFF", the file size, "WAVE", "fmt " and the fmt chunk size |
| Wav.RiffTagValue | src/audios/wav.rs:161 | "RIFF" read little-endian is 0x46464952 |
| Wav.WaveTagValue | src/audios/wav.rs:163 | "WAVE" read little-endian is 0x45564157 |
| Wav.FmtTagValue | src/audios/wav.rs:57 | "fmt " read little-endian is 0x20746D66 |
| Wav.PreambleFields | src/audios/wav.rs:143 | the header whose encoding is the image's first 20 bytes has the RIFF tag as bloc size, the file size halves as format and channels, the WAVE and fmt tags as rate fields, and the fmt size halves as block align and bit depth |
| Wav.TagFields | src/audios/wav.rs:143 | the same, for any values that encode as the three tags |
| Wav.OpenReadsPreamble | src/audios/wav.rs:143 | the header `open` reads from any saved image is built from the preamble, not the fmt fields |
| Wav.SavedFileFailsToOpen | src/audios/wav.rs:143-144 | an image saved with any fmt chunk size below 2^16, the canonical 16 included, cannot be opened: the depth read is 0 and the payload decoder panics |
| Wav.OpenOfDepthZero | src/audios/wav.rs:144 | a header read with depth 0 makes `open` panic with that depth |
| Wav.OpenIntended | src/audios/wav.rs:134-152 | the same as `open` clause for clause, but with the header read from offsets 16..36 and the payload decoded in chunk order: the short-input panic, payload panic propagation, the success condition, and the record's header, metadata, payload, total_bytes and file_size |
| Wav.IntendedRoundTrip | src/audios/wav.rs:134-171 | saving a record with no metadata and a consistent depth and byte count, then opening the image as intended, gives the record back with file_size = image length - 8 |
| Wav.IntendedSaveOfOpen | src/audios/wav.rs:134-171 | opening a well-framed image as intended and saving the record reproduces the image byte for byte |
| Wav.FrameOfImage | src/audios/wav.rs:161-166 | the frame written for the record opened from an image is the image's first 36 bytes |
| Wav.SizeFieldOf | src/audios/wav.rs:162 | a size field that reads as length - 8 is what `save` writes for file_size = length - 8 |
| Wav.HeaderChunkOf | src/audios/wav.rs:165 | the fmt chunk written for the header read from offsets 16..36 is the image's bytes 12..36 |
| Wav.PayloadOfImage | src/audios/wav.rs:167 | the payload chunk written for the payload decoded as intended is the image from offset 36 on |
| Wav.LengthFieldOf | src/audios/wav.rs:112 | a length field that reads as length - 44 is what `to_bytes` writes for that byte count |
| Wav.SetVolume | src/audios/wav.rs:185-209 | it panics with NegativeVolume exactly when the volume is negative, and otherwise returns the record with every field unchanged except the samples, which are the ones `ScaleBits` computes |
| Wav.SetVolumeKeepsFraming | src/audios/wav.rs:185-209 | after a volume change the saved image has the same length and the same bytes before the samples |
| Wav.SetVolumeUnity | src/audios/wav.rs:190-208 | volume 1.0 changes nothing, for 16-bit samples and for 32-bit samples of magnitude at most 2^24 |
| Wav.SetVolumeDoublesAndSaturates | src/audios/wav.rs:191-197 | the 16-bit samples [100, -100, 32767, -32768] doubled become [200, -200, 32767, -32768] |

## Left out

- File-system effects are left out. This covers `File::open`, `read_to_end`, `File::create`, `File::create_new` with the `overwrite` flag, the writes and `flush`, and every `io::Error` they raise. `Wav.Open` takes the bytes read; `Wav.SaveImage` is the bytes `save` asks to have written.
- The `?` on `to_bytes` inside `save` is not modelled: writing into a `Vec` never fails, so both `to_bytes` functions are total.
- Vec and VecDeque capacity hints are left out because they have no observable effect.
- Volume.ScaleSample: the product is exact real arithmetic, not `f32`. `f32` rounding of the sample conversion (above 2^24 in magnitude) and of the product is not modelled. The float-to-integer `as` is modelled as truncation toward zero of an in-range value. Also, `i32::MAX as f32` rounds up to 2^31, and the saturating `as i32` brings that bound back to 2^31 - 1; the model clamps to 2^31 - 1 directly.
- Wav.SetVolume: the volume is a real number, so NaN and infinite `f32` volumes are not modelled. In the source a NaN volume passes the `volume < 0.0` test (src/audios/wav.rs:186), `clamp` keeps the NaN and `as` turns it into 0, so every sample is silenced without a panic.
- Wav.SaveImage: it assumes every write completes. The tags are written with `file.write` (src/audios/wav.rs:161,163), which may write fewer bytes than given and whose byte count is discarded, so a short write would leave a shorter file than the image.
- Wav.SetVolumeUnity: for 32-bit samples it is stated only up to 2^24 in magnitude. That is the range where the `f32` conversion in the source is exact.
- Wav.Open: `(size as u32) - 8` is modelled as the overflow panic of a debug build (`SizeUnderflow`); a release build would wrap. `usize` is assumed to be at least 32 bits wide, and `total_bytes` is an unbounded `nat`.
- The accessors `sample_rate`, `channels` and `bit_depth` are left out. They are plain field reads of `Wav.header`.
- The `Audio` trait is left out because it only declares the interface.
- The tests in `src/audios/wav.rs:213-244` are left out. They need `.wav` files on disk.

## Findings

| source | as written | input that shows it | evidently intended | confidence | as-written member | corrected member |
|---|---|---|---|---|---|---|
| src/audios/wav.rs:143 | `FileHeader::from_bytes(&bytes[0..44])` reads the header from file offset 0. So bit depth is the upper half of the fmt chunk size, channels the upper half of the RIFF size, and so on. | The image `save` writes for any record whose bloc_size is below 2^16, such as the canonical 16: `open` reads bit depth 0 and panics | Read the header from offsets 16..36, right after the "fmt " tag | not executed | Wav.SavedFileFailsToOpen | Wav.IntendedRoundTrip |
| src/audios/wav.rs:85 | 16-bit samples are pushed onto the front of a `VecDeque`, so they are stored in reverse chunk order and re-saved reversed | Bytes [1, 0, 2, 0] at 16 bits decode as [2, 1] | Push onto the back, as the 32-bit arm does | not executed | Payload.Decode16ReversesExample | Payload.IntendedRoundTrip |
