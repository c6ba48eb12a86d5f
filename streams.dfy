/** The binary image `save` writes and `load` reads: three unsigned header
    words followed by the chunk payload. Endianness of the header words and
    of the element bytes is that of the host and is not modelled. */
module Streams {
  import opened Layout
  import opened BitWords

  /** `[nb_chunks][nb_lines][bytes_per_chunk]`. */
  datatype Header = Header(nbChunks: u32, nbLines: u32, blockBytes: u32)

  /** A header followed by the payload, in units of `E` (elements for the
      generic array, bytes for the bit-packed one). */
  datatype Image<E> = Image(header: Header, payload: seq<E>)

  /** `fs.read(dst, want)` from position `pos` of `data`: the stream delivers
      what it still holds, at most `want` units, into the front of `dst`. */
  method ReadInto<E>(dst: array<E>, data: seq<E>, pos: nat, want: nat) returns (got: nat)
    requires pos <= |data| && want <= dst.Length
    modifies dst
    ensures got == Min(want, |data| - pos)
    ensures dst[..] == Overlay(old(dst[..]), data[pos..pos + got])
  {
    got := Min(want, |data| - pos);
    forall s | 0 <= s < got {
      dst[s] := data[pos + s];
    }
  }

  /** `fs.read(dst, want)` of `want` bytes into an array of 32-bit words from
      position `pos` of `data`: the bits of the bytes delivered overwrite the
      front of the words' bit string. */
  method ReadBytesInto(dst: array<Word>, data: seq<Byte>, pos: nat, want: nat) returns (got: nat)
    requires pos <= |data| && want <= 4 * dst.Length
    modifies dst
    ensures got == Min(want, |data| - pos)
    ensures WordBits(dst[..]) == Overlay(WordBits(old(dst[..])), BitsOf(data[pos..pos + got]))
  {
    got := Min(want, |data| - pos);
    var bits := BitsOf(data[pos..pos + got]);
    PatchAll(dst[..], bits);
    forall w | 0 <= w < dst.Length {
      dst[w] := Patch(dst[w], bits, 32 * w);
    }
    assert dst[..] == seq(dst.Length, w requires 0 <= w < dst.Length => Patch(old(dst[..])[w], bits, 32 * w));
  }
}
