/** The closed sample-buffer variant of `src/audios/mod.rs`: a WAVE payload
    holds either signed 16-bit or signed 32-bit samples, never a mix. */
module Samples {
  import opened LittleEndian

  datatype SampleBits = I16bits(s16: seq<i16>) | I32bits(s32: seq<i32>)

  /** Number of samples held, whatever the variant. */
  function Count(b: SampleBits): nat
  {
    match b
    case I16bits(s) => |s|
    case I32bits(s) => |s|
  }

  /** Bytes one sample of this variant occupies on the wire. */
  function Width(b: SampleBits): nat
  {
    if b.I16bits? then 2 else 4
  }

  /** The bit depth whose decode produces this variant. */
  function Bits(b: SampleBits): nat
  {
    8 * Width(b)
  }
}
