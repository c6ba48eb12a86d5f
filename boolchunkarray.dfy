/** `ChunkArray<CHUNKSIZE, bool>`: the bit-packed form of the chunk array.
    A chunk is `CHUNKSIZE / 32` words of 32 bits, and element `i` is bit
    `(i % CHUNKSIZE) % 32` of word `(i % CHUNKSIZE) / 32` of chunk
    `i / CHUNKSIZE`. The flat view of the table is `Bits()`. */
module BoolChunkArrays {
  import opened Layout
  import opened BitWords
  import opened Streams
  import ChunkArrays

  /** The address of bit `i` of a table of `m` chunks of `c` bits: the
      chunk and the word exist, the bit within the word is `i % 32`, and the
      word starts at bit `i - i % 32` of the table. */
  lemma BitAddress(i: nat, m: nat, c: nat)
    requires c % 32 == 0 && 0 < c && i < Times(m, c)
    ensures 0 <= i / c < m && (i % c) / 32 < c / 32 && (i % c) % 32 == i % 32
    ensures Times(i / c, c) + 32 * ((i % c) / 32) == i - i % 32
    ensures 32 * ((i % c) / 32) + 32 <= c
  {
    Locate(i, m, c);
    var j := i % c;
    var x := j / 32;
    TimesAligned(i / c, c);
    var t := Times(i / c, c);
    DivModUnique(i, 32, t / 32 + x, j % 32);
  }

  /** Two bits of the table with the same chunk, word and bit within the
      word are the same bit: distinct indices have distinct addresses. */
  lemma BitAddressInjective(i: nat, k: nat, m: nat, c: nat)
    requires c % 32 == 0 && 0 < c && i < Times(m, c) && k < Times(m, c)
    requires i / c == k / c && (i % c) / 32 == (k % c) / 32 && i % 32 == k % 32
    ensures i == k
  {
    BitAddress(i, m, c);
    BitAddress(k, m, c);
  }

  /** A table of `m` chunks of `c` bits holds `Times(m, c / 32)` words. */
  lemma {:induction false} WordCount(m: nat, c: nat)
    requires c % 32 == 0
    ensures Times(m, c) == 32 * Times(m, c / 32)
  {
    if m > 0 {
      WordCount(m - 1, c);
    }
  }

  /** Without wrap-around of the bit count, the unsigned word count of `m`
      chunks of `c` bits is `Times(m, c / 32)`. */
  lemma CapacityWords(m: nat, c: nat)
    requires c % 32 == 0 && c >= 32
    ensures Times(m, c) < U32 ==> ((m % U32 * c) % U32) / 32 == Times(m, c / 32)
  {
    if Times(m, c) < U32 {
      TimesIsProduct(m, c);
      MulAtLeast(c, m);
      Unwrapped(m);
      Unwrapped(m * c);
      WordCount(m, c);
      DivModUnique(m * c, 32, Times(m, c / 32), 0);
    }
  }

  /** After `setFalseDirty(i)`, index `k` reads false exactly when it lies in
      the chunk and the word of `i`, and reads as before otherwise. */
  lemma DirtyClear(s: seq<bool>, m: nat, c: nat, i: nat, k: nat)
    requires c % 32 == 0 && 0 < c && |s| == Times(m, c) && i < |s| && k < |s|
    ensures i - i % 32 + 32 <= |s|
    ensures Spliced(s, i - i % 32, ZeroWord)[k] ==
      if k / c == i / c && (k % c) / 32 == (i % c) / 32 then false else s[k]
  {
    BitAddress(i, m, c);
    BitAddress(k, m, c);
    TimesBelow(i / c, m, c);
    var a := Times(i / c, c) + 32 * ((i % c) / 32);
    SplicedAt(s, a, ZeroWord, k);
    if a <= k < a + 32 {
      DivModUnique(k, 32, i / 32, k - a);
      if k / c < i / c {
        TimesBelow(k / c, i / c, c);
      } else if i / c < k / c {
        TimesBelow(i / c, k / c, c);
      }
    }
  }

  /** `save`'s rounding of `nbLines` up to a multiple of 32, in unsigned
      arithmetic: a count within 31 of 2^32 wraps to 0. */
  function RoundUp32(nbLines: u32): (r: u32)
    ensures r % 32 == 0
    ensures nbLines <= U32 - 32 ==> nbLines <= r < nbLines + 32
    ensures U32 - 32 < nbLines ==> r == 0
  {
    if nbLines % 32 != 0 then ((nbLines / 32 + 1) * 32) % U32 else nbLines
  }

  /** The byte count `save` writes from, and `load` reads into, the last of
      `n` chunks, as the code computes it: `nbLines - nbca * CHUNKSIZE / 8u`
      in unsigned arithmetic, in which the division by 8 applies to the
      product alone, then divided by 8. With one chunk it is `nbLines / 8`. */
  function BoolLastBytesAsWritten(n: u32, nbLines: u32, c: nat): (k: u32)
    requires n > 0
    ensures n == 1 ==> k == nbLines / 8
  {
    ((nbLines - (Times(n - 1, c) % U32) / 8) % U32) / 8
  }

  /** The byte count evidently intended for the last chunk: its share of the
      lines, `(nbLines - nbca * CHUNKSIZE) / 8`. */
  function BoolLastBytes(n: u32, nbLines: u32, c: nat): (k: u32)
    requires n > 0
    ensures Times(n - 1, c) <= nbLines ==> k == (nbLines - Times(n - 1, c)) / 8
    ensures n == 1 ==> k == nbLines / 8
  {
    ((nbLines - Times(n - 1, c)) % U32) / 8
  }

  /** The bytes of the payload of a `save`: the full chunks before the last
      one and the last chunk's count as written. */
  function BoolPayloadBytes(n: u32, nbLines: u32, c: nat): (len: nat)
    ensures n == 0 ==> len == 0
    ensures n == 1 ==> len == nbLines / 8
  {
    if n == 0 then 0 else Times(n - 1, c / 8) + BoolLastBytesAsWritten(n, nbLines, c)
  }

  /** Chunks of 32 bits, three of them, and 70 lines: the lines round to 96,
      which fit the chunks and pass the assertion, yet the count as written
      takes 11 bytes from the 4-byte last chunk, where 4 are intended. With
      two chunks and 32 lines the count as written stays inside the chunk
      but is 3 bytes where none are intended. */
  lemma BoolLastBytesOverrun()
    ensures RoundUp32(70) == 96
    ensures ChunkArrays.SaveAssertHolds(3, 96, 32) && ChunkArrays.LastChunkFits(3, 96, 32)
    ensures BoolLastBytesAsWritten(3, 96, 32) == 11 > 32 / 8
    ensures BoolLastBytes(3, 96, 32) == 4
    ensures BoolLastBytesAsWritten(2, 32, 32) == 3 <= 32 / 8 && BoolLastBytes(2, 32, 32) == 0
  {
    assert Times(2, 32) == 64;
    assert Times(3, 32) == 96;
  }

  /** When the rounded lines fit the chunks, the intended count covers the
      last chunk's share exactly and stays inside the chunk; the count as
      written is never smaller, and with a single chunk the two agree. */
  lemma BoolLastBytesFit(n: u32, nbLines: u32, c: nat)
    requires n > 0 && c % 32 == 0 && nbLines % 32 == 0
    requires ChunkArrays.LastChunkFits(n, nbLines, c)
    ensures Times(n - 1, c) + 8 * BoolLastBytes(n, nbLines, c) == nbLines
    ensures 8 * BoolLastBytes(n, nbLines, c) <= c && BoolLastBytes(n, nbLines, c) <= c / 8
    ensures BoolLastBytes(n, nbLines, c) <= BoolLastBytesAsWritten(n, nbLines, c)
    ensures n == 1 ==> BoolLastBytes(n, nbLines, c) == BoolLastBytesAsWritten(n, nbLines, c)
  {
    TimesAligned(n - 1, c);
    assert Times(n, c) == Times(n - 1, c) + c;
    LastBytesArith(nbLines, Times(n - 1, c), c);
  }

  /** The arithmetic of `BoolLastBytesFit`, the chunks before the last one
      holding `t` bits. */
  lemma LastBytesArith(nbLines: nat, t: nat, c: nat)
    requires nbLines < U32 && t % 32 == 0 && nbLines % 32 == 0 && t <= nbLines <= t + c
    ensures t + 8 * (((nbLines - t) % U32) / 8) == nbLines
    ensures 8 * (((nbLines - t) % U32) / 8) <= c && ((nbLines - t) % U32) / 8 <= c / 8
    ensures ((nbLines - t) % U32) / 8 <= ((nbLines - (t % U32) / 8) % U32) / 8
    ensures t == 0 ==> ((nbLines - t) % U32) / 8 == ((nbLines - (t % U32) / 8) % U32) / 8
  {
    var d := nbLines - t;
    DivModUnique(d, 32, nbLines / 32 - t / 32, 0);
    WordsAndBytes(d);
    var e := nbLines - t / 8;
    Unwrapped(d);
    Unwrapped(t);
    Unwrapped(e);
    BytesMonotone(d, e);
    BytesMonotone(d, c);
  }

  /** Unsigned arithmetic leaves a value below 2^32 as it is. */
  lemma Unwrapped(x: int)
    requires 0 <= x < U32
    ensures x % U32 == x
  {
    DivModUnique(x, U32, 0, x);
  }

  /** Dropping the low three bits keeps the order. */
  lemma BytesMonotone(a: nat, b: nat)
    requires a <= b
    ensures a / 8 <= b / 8
  {
  }

  /** What `load` leaves in the table after reading the payload of `save`:
      when the count as written stays inside the last chunk, the payload
      covers the rounded lines and they are those saved. */
  lemma BoolLoadAfterSave(before: seq<bool>, saved: seq<bool>, payload: seq<Byte>, n: u32, nbLines: u32, c: nat)
    requires n > 0 && c >= 32 && c % 32 == 0 && nbLines % 32 == 0 && |saved| == Times(n, c) && Times(n, c) < U32
    requires BoolLastBytesAsWritten(n, nbLines, c) <= c / 8
    requires |payload| == BoolPayloadBytes(n, nbLines, c) && 8 * |payload| <= |saved|
    requires BitsOf(payload) == saved[..8 * |payload|]
    ensures nbLines <= 8 * |payload|
    ensures Overlay(Resized(before, Times(n, c), false), BitsOf(payload[..Min(BoolPayloadBytes(n, nbLines, c), |payload|)]))[..nbLines]
      == saved[..nbLines]
  {
    PayloadCoversLines(n, nbLines, c);
    assert payload[..Min(BoolPayloadBytes(n, nbLines, c), |payload|)] == payload;
    OverlayFront(Resized(before, Times(n, c), false), BitsOf(payload), saved, nbLines);
  }

  /** Whenever the count as written stays inside the last chunk, the
      payload of `save` covers all the rounded lines, surplus chunks
      included: a count that wraps would be far larger than a chunk. */
  lemma PayloadCoversLines(n: u32, nbLines: u32, c: nat)
    requires n > 0 && c >= 32 && c % 32 == 0 && nbLines % 32 == 0 && Times(n, c) < U32
    requires BoolLastBytesAsWritten(n, nbLines, c) <= c / 8
    ensures nbLines <= 8 * BoolPayloadBytes(n, nbLines, c)
  {
    LeadingChunks(n, c);
    CoverArith(nbLines, Times(n - 1, c), Times(n - 1, c / 8), c);
  }

  /** The `n - 1` chunks before the last one: `t` bits, that is `t8` bytes,
      a whole number of words, and at least one chunk unless there are none. */
  lemma LeadingChunks(n: nat, c: nat)
    requires n > 0 && c >= 32 && c % 32 == 0 && Times(n, c) < U32
    ensures 8 * Times(n - 1, c / 8) == Times(n - 1, c) && Times(n - 1, c) % 32 == 0
    ensures Times(n - 1, c) + c < U32 && (Times(n - 1, c) == 0 || c <= Times(n - 1, c))
  {
    assert Times(n, c) == Times(n - 1, c) + c;
    WordsAndBytes(c);
    TimesBytes(n - 1, c);
    TimesAligned(n - 1, c);
    if n > 1 {
      TimesBelow(0, n - 1, c);
    }
  }

  /** The arithmetic of `PayloadCoversLines`: the chunks before the last one
      hold `t` bits, that is `t8` bytes, and the last-chunk count as written
      is within a chunk. A count that wrapped would exceed any chunk. */
  lemma CoverArith(nbLines: nat, t: nat, t8: nat, c: nat)
    requires nbLines < U32 && nbLines % 32 == 0 && t % 32 == 0 && 8 * t8 == t && c >= 32 && t + c < U32
    requires t == 0 || c <= t
    requires ((nbLines - (t % U32) / 8) % U32) / 8 <= c / 8
    ensures nbLines <= 8 * t8 + 8 * (((nbLines - (t % U32) / 8) % U32) / 8)
  {
    ByteCount(t, t8);
    if nbLines < t8 {
      DivModUnique(nbLines - t8, U32, -1, nbLines - t8 + U32);
      assert false;
    } else {
      Unwrapped(nbLines - t8);
    }
  }

  /** `t` bits, a whole number of words below 2^32, are `t8` bytes, a
      whole number of words, and unsigned arithmetic leaves them as they are. */
  lemma ByteCount(t: nat, t8: nat)
    requires t < U32 && t % 32 == 0 && 8 * t8 == t
    ensures t8 % 4 == 0 && (t % U32) / 8 == t8
  {
    WordsAndBytes(t);
    DivModUnique(t, 8, t8, 0);
    DivModUnique(t8, 4, t / 32, 0);
    Unwrapped(t);
  }

  /** When the rounded lines fit the chunks, the full chunks and the
      corrected last-chunk count hold exactly their bytes. */
  lemma CorrectedPayloadLines(n: u32, nbLines: u32, c: nat)
    requires n > 0 && c % 32 == 0 && nbLines % 32 == 0
    requires ChunkArrays.LastChunkFits(n, nbLines, c)
    ensures nbLines == 8 * (Times(n - 1, c / 8) + BoolLastBytes(n, nbLines, c))
  {
    BoolLastBytesFit(n, nbLines, c);
    TimesBytes(n - 1, c);
  }

  /** The payload of `save`, the bytes of the chunks before the last
      followed by the first `nbl` bytes of the last, holds the first bits of
      the table. */
  lemma PayloadBits(bs: seq<seq<bool>>, c: nat, nbca: nat, nbl: nat, payload: seq<Byte>, last: seq<Byte>)
    requires forall j :: 0 <= j < |bs| ==> |bs[j]| == c
    requires c % 8 == 0 && nbca < |bs| && 8 * nbl <= c
    requires |payload| == Times(nbca, c / 8) && BitsOf(payload) == Flatten(bs[..nbca])
    requires |last| == nbl && BitsOf(last) == bs[nbca][..8 * nbl]
    ensures 8 * |payload + last| <= |Flatten(bs)|
    ensures BitsOf(payload + last) == Flatten(bs)[..8 * |payload + last|]
  {
    FlattenPrefixPartial(bs, c, nbca, 8 * nbl);
    BitsOfConcat(payload, last);
    TimesBytes(nbca, c);
  }

  /** Appending the bytes of chunk `i` to the bytes of the chunks before it
      gives the bytes of the chunks up to `i`. */
  lemma BytesStep(bs: seq<seq<bool>>, c: nat, i: nat, payload: seq<Byte>, bytes: seq<Byte>)
    requires i < |bs| && |bs[i]| == c && c % 8 == 0
    requires |payload| == Times(i, c / 8) && BitsOf(payload) == Flatten(bs[..i])
    requires |bytes| == c / 8 && BitsOf(bytes) == bs[i][..8 * (c / 8)]
    ensures |payload + bytes| == Times(i + 1, c / 8) && BitsOf(payload + bytes) == Flatten(bs[..i + 1])
  {
    assert bs[i][..8 * (c / 8)] == bs[i];
    assert bs[..i + 1] == bs[..i] + [bs[i]];
    FlattenSnoc(bs[..i], bs[i]);
    BitsOfConcat(payload, bytes);
  }

  /** Writing word `x` of chunk `jj`, whose words are `ws`, writes the 32
      bits of the table from bit `at + 32 * x` on, `at` being where the chunk
      starts. */
  lemma WordSplice(bs: seq<seq<bool>>, c: nat, ws: seq<Word>, jj: nat, x: nat, at: nat, w: Word)
    requires forall j :: 0 <= j < |bs| ==> |bs[j]| == c
    requires jj < |bs| && x < |ws| && bs[jj] == WordBits(ws) && at == Times(jj, c)
    ensures |WordBits(ws[x := w])| == c && 32 * x + 32 <= c && at + 32 * x + 32 <= |Flatten(bs)|
    ensures Flatten(bs[jj := WordBits(ws[x := w])]) == Spliced(Flatten(bs), at + 32 * x, w)
  {
    WordStore(ws, x, w);
    FlattenWindow(bs, c, jj, at, 32 * x, w);
  }

  /** Storing `w` as word `x` writes the bits of `w` from bit `32 * x` on. */
  lemma WordStore(ws: seq<Word>, x: nat, w: Word)
    requires x < |ws|
    ensures 32 * x + 32 <= |WordBits(ws)|
    ensures WordBits(ws[x := w]) == Spliced(WordBits(ws), 32 * x, w)
  {
    TimesIsProduct(x, 32);
    SplicedWhole(ws[x], w);
    FlattenWindow(ws, 32, x, 32 * x, 0, w);
    assert ws[x := Spliced(ws[x], 0, w)] == ws[x := w];
  }

  /** Chunk `i` of `m` chunks of `c` bits starts at bit `at`, byte `bat`,
      and its `c / 8` bytes end inside the table. */
  lemma ReadBounds(i: nat, m: nat, c: nat, at: nat, bat: nat, total: nat)
    requires c % 32 == 0 && i < m && at == Times(i, c) && bat == Times(i, c / 8) && total == Times(m, c)
    ensures 8 * bat == at && at + 8 * (c / 8) <= total
  {
    WordsAndBytes(c);
    TimesBytes(i, c);
    TimesBelow(i, m, c);
  }

  /** Reading `got` bytes of `data` from position `pos` into chunk `i`, which
      starts at bit `at`, continues laying the bytes over `base`: the stream
      is at the start of the chunk's share, or exhausted. */
  lemma ChunkRead(bs: seq<seq<bool>>, c: nat, i: nat, at: nat, nb: seq<bool>, base: seq<bool>, data: seq<Byte>, pos: nat, got: nat)
    requires forall j :: 0 <= j < |bs| ==> |bs[j]| == c
    requires i < |bs| && at == Times(i, c) && 8 * got <= c && pos + got <= |data|
    requires nb == Overlay(bs[i], BitsOf(data[pos..pos + got]))
    requires 8 * pos <= at && (8 * pos < at ==> got == 0) && |base| == |Flatten(bs)| && at + 8 * got <= |base|
    requires Flatten(bs) == Overlay(base, BitsOf(data[..pos]))
    ensures Flatten(bs[i := nb]) == Overlay(base, BitsOf(data[..pos + got]))
  {
    SpliceStep(bs, c, i, at, base, BitsOf(data[..pos]), BitsOf(data[pos..pos + got]));
    assert data[..pos] + data[pos..pos + got] == data[..pos + got];
    BitsOfConcat(data[..pos], data[pos..pos + got]);
  }

  /** Zero words hold false bits only. */
  lemma ZeroWordsBits(q: nat)
    ensures WordBits(seq(q, _ => ZeroWord)) == seq(32 * q, _ => false)
  {
    var ws := seq(q, _ => ZeroWord);
    TimesIsProduct(q, 32);
    forall k | 0 <= k < 32 * q ensures WordBits(ws)[k] == false {
      FlattenIndex(ws, 32, k);
    }
  }

  class BoolChunkArray {
    /** CHUNKSIZE, in bits. */
    const chunkSize: ChunkSize
    /** `tableData_`: the chunks, in table order. */
    var chunks: seq<array<Word>>
    /** The bits of each chunk, in table order. */
    ghost var blocks: seq<seq<bool>>

    ghost predicate Valid()
      reads this, chunks
    {
      && 32 <= chunkSize && chunkSize % 32 == 0
      && |blocks| == |chunks|
      && (forall j :: 0 <= j < |chunks| ==>
            chunks[j].Length == chunkSize / 32 && |blocks[j]| == chunkSize && blocks[j] == WordBits(chunks[j][..]))
      && (forall j, k {:trigger Apart(j, k)} :: 0 <= j < |chunks| && 0 <= k < |chunks| && Apart(j, k) ==> chunks[j] != chunks[k])
    }

    /** The table as one bit string: element `k` is bit `k % CHUNKSIZE` of
        chunk `k / CHUNKSIZE`. */
    ghost function Bits(): (s: seq<bool>)
      reads this, chunks
      requires Valid()
      ensures |s| == Times(|chunks|, chunkSize)
    {
      FlattenLength(blocks, chunkSize);
      Flatten(blocks)
    }

    /** `CHUNKSIZE / 8`, the byte size of a chunk. */
    function BlockBytes(): (b: u32)
      reads this
      ensures chunkSize % 8 == 0 ==> 8 * b == chunkSize
    {
      chunkSize / 8
    }

    constructor (chunkSize: u32)
      requires ValidChunkSize(chunkSize)
      ensures Valid() && chunks == [] && Bits() == [] && this.chunkSize == chunkSize
    {
      ChunkSizeWords(chunkSize);
      this.chunkSize := chunkSize;
      chunks := [];
      blocks := [];
    }

    /** `clone()`: a new, empty array of the same chunk size. */
    method Clone() returns (c: BoolChunkArray)
      requires Valid()
      ensures fresh(c) && c.Valid() && c.chunks == [] && c.Bits() == [] && c.chunkSize == chunkSize
    {
      c := new BoolChunkArray(chunkSize);
    }

    /** `addChunk()`: appends one chunk of zero words. */
    method AddChunk()
      requires Valid()
      modifies this
      ensures Valid()
      ensures |chunks| == |old(chunks)| + 1 && chunks[..|old(chunks)|] == old(chunks)
      ensures fresh(chunks[|old(chunks)|]) && chunks[|old(chunks)|][..] == seq(chunkSize / 32, _ => ZeroWord)
      ensures Bits() == old(Bits()) + seq(chunkSize, _ => false)
    {
      var a := new Word[chunkSize / 32](_ => ZeroWord);
      assert a[..] == seq(chunkSize / 32, _ => ZeroWord);
      WordsAndBytes(chunkSize);
      ZeroWordsBits(chunkSize / 32);
      ghost var fill := WordBits(a[..]);
      FlattenSnoc(blocks, fill);
      chunks := chunks + [a];
      blocks := blocks + [fill];
      assert chunks[..|chunks| - 1] == old(chunks);
      forall j | 0 <= j < |chunks|
        ensures chunks[j].Length == chunkSize / 32 && |blocks[j]| == chunkSize && blocks[j] == WordBits(chunks[j][..])
      {
        if j < |chunks| - 1 {
          assert chunks[j] == old(chunks)[j] && blocks[j] == old(blocks)[j];
        }
      }
      forall j, k | 0 <= j < |chunks| && 0 <= k < |chunks| && Apart(j, k) ensures chunks[j] != chunks[k] {
        if j < |chunks| - 1 && k < |chunks| - 1 {
          assert chunks[j] == old(chunks)[j] && chunks[k] == old(chunks)[k];
        }
      }
    }

    /** `setNbChunks(nbc)`: grows the table with chunks of zero words or
        drops the chunks from index `nbc` on. */
    method SetNbChunks(nbc: u32)
      requires Valid()
      modifies this
      ensures Valid() && |chunks| == nbc && NbChunks() == nbc
      ensures chunks[..Min(nbc, |old(chunks)|)] == old(chunks)[..Min(nbc, |old(chunks)|)]
      ensures forall j :: |old(chunks)| <= j < nbc ==> fresh(chunks[j])
      ensures forall j :: 0 <= j < |chunks| ==> chunks[j] in old(chunks) || fresh(chunks[j])
      ensures Bits() == Resized(old(Bits()), Times(nbc, chunkSize), false)
    {
      if nbc >= |chunks| {
        Grow(nbc);
      } else {
        FlattenPrefix(blocks, chunkSize, nbc);
        chunks := chunks[..nbc];
        blocks := blocks[..nbc];
      }
    }

    /** The growing branch of `setNbChunks`: `addChunk()` until there are
        `nbc` chunks. */
    method Grow(nbc: nat)
      requires Valid() && |chunks| <= nbc
      modifies this
      ensures Valid() && |chunks| == nbc && chunks[..|old(chunks)|] == old(chunks)
      ensures forall j :: |old(chunks)| <= j < nbc ==> fresh(chunks[j])
      ensures Bits() == Resized(old(Bits()), Times(nbc, chunkSize), false)
    {
      var i := |chunks|;
      while i < nbc
        invariant Valid() && |old(chunks)| <= i <= nbc && |chunks| == i
        invariant chunks[..|old(chunks)|] == old(chunks)
        invariant forall j :: |old(chunks)| <= j < i ==> fresh(chunks[j])
        invariant |old(Bits())| <= Times(i, chunkSize)
        invariant Bits() == Resized(old(Bits()), Times(i, chunkSize), false)
      {
        ghost var before := chunks;
        AddChunk();
        assert chunks[..|old(chunks)|] == before[..|old(chunks)|];
        ResizedGrow(old(Bits()), Times(i, chunkSize), chunkSize, false);
        i := i + 1;
      }
    }

    /** `getNbChunks()`: the chunk count cast to `unsigned int`. */
    function NbChunks(): (n: u32)
      reads this
      ensures |chunks| < U32 ==> n == |chunks|
    {
      |chunks| % U32
    }

    /** `capacity()`: `nbChunks * CHUNKSIZE / 32` in `unsigned int`, the
        number of words of the table rather than the number of its bits. */
    function Capacity(): (c: u32)
      reads this, chunks
      requires Valid()
      ensures Times(|chunks|, chunkSize) < U32 ==> c == Times(|chunks|, chunkSize / 32)
    {
      CapacityWords(|chunks|, chunkSize);
      ((NbChunks() * chunkSize) % U32) / 32
    }

    /** Without wrap-around, the capacity counts one word per 32 bits of
        the table. */
    lemma CapacityIsWords()
      requires Valid() && Times(|chunks|, chunkSize) < U32
      ensures 32 * Capacity() == |Bits()|
    {
      WordCount(|chunks|, chunkSize);
    }

    /** `clear()`: drops every chunk. */
    method Clear()
      requires Valid()
      modifies this
      ensures Valid() && chunks == []
      ensures NbChunks() == 0 && Capacity() == 0 && Bits() == []
    {
      chunks := [];
      blocks := [];
    }

    /** Word `x` of chunk `jj` is the 32 bits of the table from bit
        `a == Times(jj, CHUNKSIZE) + 32 * x` on. */
    lemma WordAt(jj: nat, x: nat, a: nat)
      requires Valid() && jj < |chunks| && x < chunkSize / 32 && a == Times(jj, chunkSize) + 32 * x
      ensures a + 32 <= |Bits()|
      ensures Bits()[a..a + 32] == chunks[jj][x]
    {
      var ws := chunks[jj][..];
      TimesIsProduct(x, 32);
      FlattenWindowRead(ws, 32, x, 32 * x, 0, 32);
      assert ws[x][0..32] == ws[x];
      FlattenWindowRead(blocks, chunkSize, jj, a - 32 * x, 32 * x, 32);
    }

    /** `tableData_[jj][x] = w`: the 32 bits of that word in the table, from
        bit `a == Times(jj, CHUNKSIZE) + 32 * x` on, become those of `w`. */
    method PutWord(jj: nat, x: nat, w: Word, ghost a: nat)
      requires Valid() && jj < |chunks| && x < chunkSize / 32 && a == Times(jj, chunkSize) + 32 * x
      modifies this, chunks[jj]
      ensures Valid() && chunks == old(chunks)
      ensures a + 32 <= |old(Bits())|
      ensures Bits() == Spliced(old(Bits()), a, w)
    {
      ghost var ws := chunks[jj][..];
      ghost var bs := blocks;
      WordSplice(bs, chunkSize, ws, jj, x, a - 32 * x, w);
      StoreWord(jj, x, w);
    }

    /** The store itself: chunk `jj` gets `w` as its word `x` and nothing
        else changes. */
    method StoreWord(jj: nat, x: nat, w: Word)
      requires Valid() && jj < |chunks| && x < chunkSize / 32
      modifies this, chunks[jj]
      ensures Valid() && chunks == old(chunks)
      ensures blocks == old(blocks)[jj := WordBits(old(chunks[jj][..])[x := w])]
    {
      ghost var ws := chunks[jj][..];
      ghost var bs := blocks;
      chunks[jj][x] := w;
      assert chunks[jj][..] == ws[x := w];
      blocks := bs[jj := WordBits(chunks[jj][..])];
      forall j | 0 <= j < |chunks|
        ensures chunks[j].Length == chunkSize / 32 && |blocks[j]| == chunkSize && blocks[j] == WordBits(chunks[j][..])
      {
        if j != jj {
          assert Apart(j, jj);
          assert chunks[j][..] == old(chunks[j][..]);
        }
      }
    }

    /** `operator[]`: bit `i % 32` of word `(i % CHUNKSIZE) / 32` of chunk
        `i / CHUNKSIZE`, tested with the mask `1u << y`. */
    function Get(i: u32): (b: bool)
      reads this, chunks
      requires Valid() && i < Times(|chunks|, chunkSize)
      ensures b == Bits()[i]
    {
      BitAddress(i, |chunks|, chunkSize);
      WordAt(i / chunkSize, (i % chunkSize) / 32, i - i % 32);
      BitIsSet(chunks[i / chunkSize][(i % chunkSize) / 32], (i % chunkSize) % 32)
    }

    /** `setTrue(i)`: `|=` the mask into the word; bit `i` becomes true and
        no other bit changes. */
    method SetTrue(i: u32)
      requires Valid() && i < Times(|chunks|, chunkSize)
      modifies this, chunks
      ensures Valid() && chunks == old(chunks)
      ensures Bits() == old(Bits())[i := true]
    {
      var jj := i / chunkSize;
      var j := i % chunkSize;
      var x := j / 32;
      var y := j % 32;
      BitAddress(i, |chunks|, chunkSize);
      WordAt(jj, x, i - i % 32);
      var w := chunks[jj][x];
      SplicedPoint(Bits(), i - i % 32, w, y, true);
      PutWord(jj, x, SetBit(w, y), i - i % 32);
    }

    /** `setFalse(i)`: `&= ~` the mask into the word; bit `i` becomes false
        and no other bit changes. */
    method SetFalse(i: u32)
      requires Valid() && i < Times(|chunks|, chunkSize)
      modifies this, chunks
      ensures Valid() && chunks == old(chunks)
      ensures Bits() == old(Bits())[i := false]
    {
      var jj := i / chunkSize;
      var j := i % chunkSize;
      var x := j / 32;
      var y := j % 32;
      BitAddress(i, |chunks|, chunkSize);
      WordAt(jj, x, i - i % 32);
      var w := chunks[jj][x];
      SplicedPoint(Bits(), i - i % 32, w, y, false);
      PutWord(jj, x, ClearBit(w, y), i - i % 32);
    }

    /** `setVal(i, b)`: the mask update of `setTrue` or of `setFalse`. */
    method SetVal(i: u32, b: bool)
      requires Valid() && i < Times(|chunks|, chunkSize)
      modifies this, chunks
      ensures Valid() && chunks == old(chunks)
      ensures Bits() == old(Bits())[i := b]
    {
      if b {
        SetTrue(i);
      } else {
        SetFalse(i);
      }
    }

    /** `setFalseDirty(i)`: zeroes the whole word holding bit `i`, which
        starts at bit `i - i % 32` of the table. */
    method SetFalseDirty(i: u32)
      requires Valid() && i < Times(|chunks|, chunkSize)
      modifies this, chunks
      ensures Valid() && chunks == old(chunks)
      ensures i - i % 32 + 32 <= |Bits()|
      ensures Bits() == Spliced(old(Bits()), i - i % 32, ZeroWord)
    {
      var jj := i / chunkSize;
      var j := (i % chunkSize) / 32;
      BitAddress(i, |chunks|, chunkSize);
      PutWord(jj, j, ZeroWord, i - i % 32);
    }

    /** `initElt(id)`: `setFalse(id)`. */
    method InitElt(id: u32)
      requires Valid() && id < Times(|chunks|, chunkSize)
      modifies this, chunks
      ensures Valid() && chunks == old(chunks)
      ensures Bits() == old(Bits())[id := false]
    {
      SetFalse(id);
    }

    /** `copyElt(dst, src)`: bit `dst` becomes the old bit `src`. */
    method CopyElt(dst: u32, src: u32)
      requires Valid() && dst < Times(|chunks|, chunkSize) && src < Times(|chunks|, chunkSize)
      modifies this, chunks
      ensures Valid() && chunks == old(chunks)
      ensures Bits() == old(Bits())[dst := old(Bits())[src]]
    {
      SetVal(dst, Get(src));
    }

    /** `swapElt(id1, id2)`: the two bits are exchanged. */
    method SwapElt(id1: u32, id2: u32)
      requires Valid() && id1 < Times(|chunks|, chunkSize) && id2 < Times(|chunks|, chunkSize)
      modifies this, chunks
      ensures Valid() && chunks == old(chunks)
      ensures Bits() == Swapped(old(Bits()), id1, id2)
    {
      var data := Get(id1);
      SetVal(id1, Get(id2));
      SetVal(id2, data);
    }

    /** `getChunksPointers(addr, byteBlockSize)`: every chunk, in table
        order, the count cast to `unsigned int` and `CHUNKSIZE / 8`. */
    method GetChunksPointers() returns (count: u32, addr: seq<array<Word>>, byteBlockSize: u32)
      requires Valid()
      ensures addr == chunks && count == NbChunks()
      ensures byteBlockSize == BlockBytes()
    {
      byteBlockSize := chunkSize / 8;
      addr := [];
      for i := 0 to |chunks|
        invariant addr == chunks[..i]
      {
        addr := addr + [chunks[i]];
      }
      count := |addr| % U32;
    }

    /** `save(fs, nbLines)`: rounds `nbLines` up to a multiple of 32, writes
        the header, then the `CHUNKSIZE / 8` bytes of every chunk but the
        last, then the byte count as written from the last chunk, which must
        not run past it. The payload holds the first bits of the table. */
    method Save(nbLines: u32) returns (img: Image<Byte>)
      requires Valid()
      requires ChunkArrays.SaveAssertHolds(|chunks|, RoundUp32(nbLines), chunkSize)
      requires NbChunks() > 0 ==> BoolLastBytesAsWritten(NbChunks(), RoundUp32(nbLines), chunkSize) <= chunkSize / 8
      ensures img.header == Header(NbChunks(), RoundUp32(nbLines), BlockBytes())
      ensures |img.payload| == BoolPayloadBytes(NbChunks(), RoundUp32(nbLines), chunkSize)
      ensures 8 * |img.payload| <= |Bits()|
      ensures BitsOf(img.payload) == Bits()[..8 * |img.payload|]
    {
      var lines := RoundUp32(nbLines);
      var n := NbChunks();
      img := Image(Header(n, lines, chunkSize / 8), []);
      if n == 0 {
        return;
      }
      var nbca := n - 1;
      var payload := FullChunkBytes(nbca);
      var nbl := BoolLastBytesAsWritten(n, lines, chunkSize);
      var last := WordBytes(chunks[nbca][..], nbl);
      WordsAndBytes(chunkSize);
      PayloadBits(blocks, chunkSize, nbca, nbl, payload, last);
      payload := payload + last;
      img := img.(payload := payload);
    }

    /** The writes of `save` for the chunks before the last: the
        `CHUNKSIZE / 8` bytes of each of the first `count` chunks. */
    method FullChunkBytes(count: nat) returns (payload: seq<Byte>)
      requires Valid() && count <= |chunks|
      ensures |payload| == Times(count, chunkSize / 8)
      ensures BitsOf(payload) == Flatten(blocks[..count])
    {
      payload := [];
      for i := 0 to count
        invariant |payload| == Times(i, chunkSize / 8)
        invariant BitsOf(payload) == Flatten(blocks[..i])
      {
        var bytes := WordBytes(chunks[i][..], chunkSize / 8);
        BytesStep(blocks, chunkSize, i, payload, bytes);
        payload := payload + bytes;
      }
    }

    /** `load(fs)`: rejects an image whose third header word is not
        `CHUNKSIZE / 8`; otherwise resizes the table to the header's chunk
        count and reads the chunks in order from the payload, the last one
        for the byte count as written, which must not run past it. */
    method Load(img: Image<Byte>) returns (ok: bool)
      requires Valid()
      requires img.header.blockBytes == BlockBytes() && img.header.nbChunks > 0 ==>
        BoolLastBytesAsWritten(img.header.nbChunks, img.header.nbLines, chunkSize) <= chunkSize / 8
      modifies this, chunks
      ensures Valid()
      ensures ok <==> img.header.blockBytes == BlockBytes()
      ensures !ok ==> chunks == old(chunks) && Bits() == old(Bits())
      ensures ok ==> |chunks| == img.header.nbChunks
      ensures ok ==> 8 * BoolPayloadBytes(img.header.nbChunks, img.header.nbLines, chunkSize) <= |Bits()|
      ensures ok ==> Bits() == Overlay(Resized(old(Bits()), Times(|chunks|, chunkSize), false),
                                       BitsOf(img.payload[..Min(BoolPayloadBytes(img.header.nbChunks, img.header.nbLines, chunkSize), |img.payload|)]))
    {
      var h := img.header;
      if h.blockBytes != chunkSize / 8 {
        return false;
      }
      ok := true;
      SetNbChunks(h.nbChunks);
      if h.nbChunks > 0 {
        ReadChunks(img.payload, BoolLastBytesAsWritten(h.nbChunks, h.nbLines, chunkSize), Times(h.nbChunks - 1, chunkSize / 8));
      }
    }

    /** The reads of `load` once the table has its chunks: every chunk but the
        last in full, then `nbl` bytes into the last one. */
    method ReadChunks(data: seq<Byte>, nbl: nat, ghost full: nat)
      requires Valid() && |chunks| > 0 && nbl <= chunkSize / 8 && full == Times(|chunks| - 1, chunkSize / 8)
      modifies this, chunks
      ensures Valid() && chunks == old(chunks)
      ensures 8 * (full + nbl) <= |Bits()|
      ensures Bits() == Overlay(old(Bits()), BitsOf(data[..Min(full + nbl, |data|)]))
    {
      ghost var base := Bits();
      var nbca := |chunks| - 1;
      var pos := FullChunkReads(data, nbca);
      pos := ReadNext(nbca, data, pos, nbl, base, full);
    }

    /** The reads of `load` for the chunks before the last: `CHUNKSIZE / 8`
        bytes into each of the first `count` chunks, in order. */
    method FullChunkReads(data: seq<Byte>, count: nat) returns (pos: nat)
      requires Valid() && count < |chunks|
      modifies this, chunks
      ensures Valid() && chunks == old(chunks)
      ensures pos == Min(Times(count, chunkSize / 8), |data|) && 8 * pos <= |old(Bits())|
      ensures Bits() == Overlay(old(Bits()), BitsOf(data[..pos]))
    {
      ghost var base := Bits();
      pos := 0;
      for i := 0 to count
        invariant Valid() && chunks == old(chunks)
        invariant pos == Min(Times(i, chunkSize / 8), |data|) && 8 * pos <= |base|
        invariant Bits() == Overlay(base, BitsOf(data[..pos]))
      {
        pos := ReadNext(i, data, pos, chunkSize / 8, base, Times(i, chunkSize / 8));
        assert Times(i + 1, chunkSize / 8) == Times(i, chunkSize / 8) + chunkSize / 8;
      }
    }

    /** The read into chunk `i` at its place in the sequence of reads: the
        stream is at the start of the chunk's share of the payload, or
        exhausted, and the bytes read so far lie over `base`. */
    method ReadNext(i: nat, data: seq<Byte>, pos: nat, want: nat, ghost base: seq<bool>, ghost bat: nat) returns (pos': nat)
      requires Valid() && i < |chunks| && want <= chunkSize / 8 && |base| == |Bits()|
      requires bat == Times(i, chunkSize / 8) && pos == Min(bat, |data|) && 8 * pos <= |base|
      requires Bits() == Overlay(base, BitsOf(data[..pos]))
      modifies this, chunks[i]
      ensures Valid() && chunks == old(chunks)
      ensures pos' == Min(bat + want, |data|) && 8 * (bat + want) <= |base| && 8 * pos' <= |base|
      ensures Bits() == Overlay(base, BitsOf(data[..pos']))
    {
      ghost var at := Times(i, chunkSize);
      ReadBounds(i, |chunks|, chunkSize, at, bat, |base|);
      ghost var bs := blocks;
      var got := ReadChunk(i, data, pos, want);
      ChunkRead(bs, chunkSize, i, at, blocks[i], base, data, pos, got);
      pos' := pos + got;
    }

    /** One `fs.read` of `want` bytes from position `pos` of the payload into
        chunk `i`: the bits of the bytes delivered overwrite the front of the
        chunk and nothing else changes. */
    method ReadChunk(i: nat, data: seq<Byte>, pos: nat, want: nat) returns (got: nat)
      requires Valid() && i < |chunks| && want <= chunkSize / 8 && pos <= |data|
      modifies this, chunks[i]
      ensures Valid() && chunks == old(chunks)
      ensures got == Min(want, |data| - pos) && 8 * got <= chunkSize
      ensures blocks == old(blocks)[i := Overlay(old(blocks)[i], BitsOf(data[pos..pos + got]))]
    {
      WordsAndBytes(chunkSize);
      ghost var bs := blocks;
      got := ReadBytesInto(chunks[i], data, pos, want);
      blocks := bs[i := WordBits(chunks[i][..])];
      forall j | 0 <= j < |chunks|
        ensures chunks[j].Length == chunkSize / 32 && |blocks[j]| == chunkSize && blocks[j] == WordBits(chunks[j][..])
      {
        if j != i {
          assert Apart(j, i);
          assert chunks[j][..] == old(chunks[j][..]);
        }
      }
    }
  }

  /** `save` from one bit array followed by `load` into another of the same
      chunk size: when the assertion of `save` holds and the count as
      written does not run past the last chunk, the second array ends with
      the first one's chunk count and its first bits up to the rounded line
      count. */
  method BoolSaveThenLoad(src: BoolChunkArray, dst: BoolChunkArray, nbLines: u32) returns (ok: bool)
    requires src.Valid() && dst.Valid() && src != dst && dst.chunkSize == src.chunkSize
    requires 0 < |src.chunks| < U32 && Times(|src.chunks|, src.chunkSize) < U32
    requires ChunkArrays.SaveAssertHolds(|src.chunks|, RoundUp32(nbLines), src.chunkSize)
    requires BoolLastBytesAsWritten(|src.chunks|, RoundUp32(nbLines), src.chunkSize) <= src.chunkSize / 8
    modifies dst, dst.chunks
    ensures ok && dst.Valid() && |dst.chunks| == |old(src.chunks)|
    ensures RoundUp32(nbLines) <= |dst.Bits()| && RoundUp32(nbLines) <= |old(src.Bits())|
    ensures dst.Bits()[..RoundUp32(nbLines)] == old(src.Bits())[..RoundUp32(nbLines)]
  {
    var n, c, lines := |src.chunks|, src.chunkSize, RoundUp32(nbLines);
    ghost var saved := src.Bits();
    ghost var before := dst.Bits();
    var img := src.Save(nbLines);
    ok := dst.Load(img);
    BoolLoadAfterSave(before, saved, img.payload, n, lines, c);
  }
}
