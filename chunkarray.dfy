/** `ChunkArray<CHUNKSIZE, T>`: a growable table of elements stored as a
    vector of owned blocks ("chunks") of `CHUNKSIZE` elements each. Index `i`
    lives in chunk `i / CHUNKSIZE` at slot `i % CHUNKSIZE`; the flat view of
    the table is `Contents()`. */
module ChunkArrays {
  import opened Layout
  import opened Streams

  /** The guard `save` places on `nbLines`, an assertion comparing it with
      the chunk count: it admits every line count below one chunk past the
      table. */
  function SaveAssertHolds(nbChunks: nat, nbLines: u32, c: nat): (b: bool)
    requires c > 0
    ensures b <==> nbLines < Times(nbChunks + 1, c)
  {
    ChunkBound(nbLines, nbChunks + 1, c);
    TimesIsProduct(nbChunks + 1, c);
    nbLines / c <= nbChunks
  }

  /** `nbLines - nbca * CHUNKSIZE` in unsigned arithmetic, `nbca` being the
      number of chunks before the last: the number of elements `save` writes
      from, and `load` reads into, the last chunk. Reducing the product
      modulo 2^32 first, as the machine does, gives the same difference
      modulo 2^32. */
  function LastLinesAsWritten(n: u32, nbLines: u32, c: nat): (nbl: u32)
    requires n > 0
    ensures Times(n - 1, c) <= nbLines ==> nbl == nbLines - Times(n - 1, c)
    ensures nbLines < Times(n - 1, c) < U32 ==> nbl == U32 - (Times(n - 1, c) - nbLines)
  {
    (nbLines - Times(n - 1, c)) % U32
  }

  /** The element count the payload of a `save` holds: the full chunks before
      the last one and the last chunk's share. */
  function PayloadLength(n: u32, nbLines: u32, c: nat): (len: nat)
    ensures n == 0 ==> len == 0
    ensures n > 0 && Times(n - 1, c) <= nbLines ==> len == nbLines
  {
    if n == 0 then 0 else Times(n - 1, c) + LastLinesAsWritten(n, nbLines, c)
  }

  /** What `nbLines` must satisfy for the last of `n` chunks to hold between
      zero and `CHUNKSIZE` of the lines. */
  predicate LastChunkFits(n: nat, nbLines: nat, c: nat) {
    n == 0 || (Times(n - 1, c) <= nbLines && nbLines <= Times(n, c))
  }

  /** With at least one chunk and no wrap-around of `n * c`, the last-chunk
      count stays inside the chunk exactly when the lines fit, and then the
      payload holds exactly `nbLines` elements. */
  lemma LastChunkFitsIff(n: u32, nbLines: u32, c: nat)
    requires n > 0 && Times(n, c) < U32
    ensures LastLinesAsWritten(n, nbLines, c) <= c <==> LastChunkFits(n, nbLines, c)
    ensures LastChunkFits(n, nbLines, c) ==> PayloadLength(n, nbLines, c) == nbLines
  {
    assert Times(n, c) == Times(n - 1, c) + c;
  }

  /** The assertion in `save` lets through line counts for which the last
      chunk is overrun (one chunk of 32, 63 lines: 63 elements written from a
      32-element chunk) or the subtraction wraps (three chunks of 32, 10
      lines: 2^32 - 54 elements). */
  lemma SaveAssertAdmitsOverrun()
    ensures SaveAssertHolds(1, 63, 32) && LastLinesAsWritten(1, 63, 32) == 63 > 32
    ensures SaveAssertHolds(3, 10, 32) && LastLinesAsWritten(3, 10, 32) == U32 - 54
    ensures !LastChunkFits(1, 63, 32) && !LastChunkFits(3, 10, 32)
  {
    assert Times(2, 32) == 64;
  }

  /** Whenever the lines fit at least one chunk, the assertion holds: it is
      the weaker guard. */
  lemma LastChunkFitsImpliesAssert(n: nat, nbLines: u32, c: nat)
    requires c > 0 && n > 0 && LastChunkFits(n, nbLines, c)
    ensures SaveAssertHolds(n, nbLines, c)
  {
    TimesIsProduct(n, c);
    ChunkBound(nbLines, n + 1, c);
    assert (n + 1) * c == n * c + c;
  }

  /** What `load` leaves in the table after reading the payload of `save`
      when the lines fit: whatever the table held before, its first `nbLines`
      elements are those saved. */
  lemma LoadAfterSave<T>(before: seq<T>, saved: seq<T>, n: u32, nbLines: u32, c: nat, zero: T)
    requires n > 0 && Times(n, c) < U32 && LastChunkFits(n, nbLines, c)
    requires |saved| == Times(n, c)
    ensures PayloadLength(n, nbLines, c) == nbLines <= |saved|
    ensures var payload := saved[..PayloadLength(n, nbLines, c)];
      Overlay(Resized(before, Times(n, c), zero), payload[..Min(PayloadLength(n, nbLines, c), |payload|)])[..nbLines]
        == saved[..nbLines]
  {
    LastChunkFitsIff(n, nbLines, c);
  }

  /** Reading `got` elements of `data` from position `pos` into chunk `i`,
      which starts at slot `at`, continues laying the elements over `base`:
      the stream is at the start of the chunk's share, or exhausted. */
  lemma ChunkRead<T>(bs: seq<seq<T>>, c: nat, i: nat, at: nat, nb: seq<T>, base: seq<T>, data: seq<T>, pos: nat, got: nat)
    requires forall j :: 0 <= j < |bs| ==> |bs[j]| == c
    requires i < |bs| && at == Times(i, c) && got <= c && pos + got <= |data|
    requires nb == Overlay(bs[i], data[pos..pos + got])
    requires pos <= at && (pos < at ==> got == 0) && |base| == |Flatten(bs)| && at + got <= |base|
    requires Flatten(bs) == Overlay(base, data[..pos])
    ensures Flatten(bs[i := nb]) == Overlay(base, data[..pos + got])
  {
    SpliceStep(bs, c, i, at, base, data[..pos], data[pos..pos + got]);
    assert data[..pos] + data[pos..pos + got] == data[..pos + got];
  }

  class ChunkArray<T> {
    /** CHUNKSIZE, in elements. */
    const chunkSize: ChunkSize
    /** `sizeof(T)`, in bytes. */
    const eltBytes: nat
    /** `T()`, the value of a freshly allocated element. */
    const zero: T
    /** `tableData_`: the chunks, in table order. */
    var chunks: seq<array<T>>
    /** The elements of each chunk, in table order. */
    ghost var blocks: seq<seq<T>>

    ghost predicate Valid()
      reads this, chunks
    {
      && 32 <= chunkSize && eltBytes > 0
      && |blocks| == |chunks|
      && (forall j :: 0 <= j < |chunks| ==> chunks[j].Length == chunkSize && blocks[j] == chunks[j][..])
      && (forall j, k {:trigger Apart(j, k)} :: 0 <= j < |chunks| && 0 <= k < |chunks| && Apart(j, k) ==> chunks[j] != chunks[k])
    }

    /** The table as one sequence: element `k` is slot `k % CHUNKSIZE` of
        chunk `k / CHUNKSIZE`. */
    ghost function Contents(): (s: seq<T>)
      reads this, chunks
      requires Valid()
      ensures |s| == Times(|chunks|, chunkSize)
    {
      FlattenLength(blocks, chunkSize);
      Flatten(blocks)
    }

    /** `CHUNKSIZE * sizeof(T)` as stored in an `unsigned int`: the product
        itself when it fits 32 bits, truncated otherwise. */
    function BlockBytes(): (b: u32)
      reads this
      ensures chunkSize * eltBytes < U32 ==> b == chunkSize * eltBytes
      ensures b == chunkSize * eltBytes ==> chunkSize * eltBytes < U32
    {
      (chunkSize * eltBytes) % U32
    }

    constructor (chunkSize: nat, eltBytes: nat, zero: T)
      requires ValidChunkSize(chunkSize) && eltBytes > 0
      ensures Valid() && chunks == [] && Contents() == []
      ensures this.chunkSize == chunkSize && this.eltBytes == eltBytes && this.zero == zero
    {
      this.chunkSize := chunkSize;
      this.eltBytes := eltBytes;
      this.zero := zero;
      chunks := [];
      blocks := [];
    }

    /** `clone()`: a new, empty array of the same configuration. */
    method Clone() returns (c: ChunkArray<T>)
      requires Valid()
      ensures fresh(c) && c.Valid() && c.chunks == [] && c.Contents() == []
      ensures c.chunkSize == chunkSize && c.eltBytes == eltBytes && c.zero == zero
    {
      c := new ChunkArray(chunkSize, eltBytes, zero);
    }

    /** `addChunk()`: appends one chunk of `T()` values. */
    method AddChunk()
      requires Valid()
      modifies this
      ensures Valid()
      ensures |chunks| == |old(chunks)| + 1 && chunks[..|old(chunks)|] == old(chunks)
      ensures fresh(chunks[|old(chunks)|])
      ensures Contents() == old(Contents()) + seq(chunkSize, _ => zero)
    {
      var z := zero;
      var a := new T[chunkSize](_ => z);
      FlattenSnoc(blocks, a[..]);
      chunks := chunks + [a];
      blocks := blocks + [a[..]];
      assert chunks[..|chunks| - 1] == old(chunks);
      assert a[..] == seq(chunkSize, _ => zero);
    }

    /** `setNbChunks(nbc)`: grows the table with chunks of `T()` or drops the
        chunks from index `nbc` on. */
    method SetNbChunks(nbc: u32)
      requires Valid()
      modifies this
      ensures Valid() && |chunks| == nbc && NbChunks() == nbc
      ensures chunks[..Min(nbc, |old(chunks)|)] == old(chunks)[..Min(nbc, |old(chunks)|)]
      ensures forall j :: |old(chunks)| <= j < nbc ==> fresh(chunks[j])
      ensures forall j :: 0 <= j < |chunks| ==> chunks[j] in old(chunks) || fresh(chunks[j])
      ensures Contents() == Resized(old(Contents()), Times(nbc, chunkSize), zero)
    {
      if nbc >= |chunks| {
        Grow(nbc);
      } else {
        FlattenPrefix(blocks, chunkSize, nbc);
        chunks := chunks[..nbc];
        blocks := blocks[..nbc];
      }
    }

    /** The growing branch of `setNbChunks`: `addChunk()` until there are
        `nbc` chunks. */
    method Grow(nbc: nat)
      requires Valid() && |chunks| <= nbc
      modifies this
      ensures Valid() && |chunks| == nbc && chunks[..|old(chunks)|] == old(chunks)
      ensures forall j :: |old(chunks)| <= j < nbc ==> fresh(chunks[j])
      ensures Contents() == Resized(old(Contents()), Times(nbc, chunkSize), zero)
    {
      var i := |chunks|;
      while i < nbc
        invariant Valid() && |old(chunks)| <= i <= nbc && |chunks| == i
        invariant chunks[..|old(chunks)|] == old(chunks)
        invariant forall j :: |old(chunks)| <= j < i ==> fresh(chunks[j])
        invariant |old(Contents())| <= Times(i, chunkSize)
        invariant Contents() == Resized(old(Contents()), Times(i, chunkSize), zero)
      {
        ghost var before := chunks;
        AddChunk();
        assert chunks[..|old(chunks)|] == before[..|old(chunks)|];
        ResizedGrow(old(Contents()), Times(i, chunkSize), chunkSize, zero);
        i := i + 1;
      }
    }

    /** `getNbChunks()`: the chunk count cast to `unsigned int`. */
    function NbChunks(): (n: u32)
      reads this
      ensures |chunks| < U32 ==> n == |chunks|
    {
      |chunks| % U32
    }

    /** `capacity()`: the number of addressable elements, computed in
        `unsigned int`. */
    function Capacity(): (c: u32)
      reads this, chunks
      requires Valid()
      ensures Times(|chunks|, chunkSize) < U32 ==> c == Times(|chunks|, chunkSize)
    {
      TimesIsProduct(|chunks|, chunkSize);
      MulAtLeast(chunkSize, |chunks|);
      (NbChunks() * chunkSize) % U32
    }

    /** Without wrap-around, the capacity is the length of the table. */
    lemma CapacityIsLength()
      requires Valid() && Times(|chunks|, chunkSize) < U32
      ensures Capacity() == |Contents()|
    {
    }

    /** `clear()`: drops every chunk. */
    method Clear()
      requires Valid()
      modifies this
      ensures Valid() && chunks == []
      ensures NbChunks() == 0 && Capacity() == 0 && Contents() == []
    {
      chunks := [];
      blocks := [];
    }

    /** `operator[]`: element `i`, read at chunk `i / CHUNKSIZE`, slot
        `i % CHUNKSIZE`. */
    function Get(i: u32): (v: T)
      reads this, chunks
      requires Valid() && i < Times(|chunks|, chunkSize)
      ensures v == Contents()[i]
    {
      FlattenIndex(blocks, chunkSize, i);
      chunks[i / chunkSize][i % chunkSize]
    }

    /** `setVal(i, v)`: writes `v` at index `i`; no other index changes. */
    method SetVal(i: u32, v: T)
      requires Valid() && i < Times(|chunks|, chunkSize)
      modifies this, chunks
      ensures Valid() && chunks == old(chunks)
      ensures Contents() == old(Contents())[i := v]
    {
      Locate(i, |chunks|, chunkSize);
      var q, r := i / chunkSize, i % chunkSize;
      FlattenUpdate(blocks, chunkSize, q, r, v);
      chunks[q][r] := v;
      blocks := blocks[q := blocks[q][r := v]];
      forall j | 0 <= j < |chunks| ensures blocks[j] == chunks[j][..] {
        if j != q {
          assert Apart(j, q);
        }
      }
    }

    /** `initElt(id)`: element `id` becomes `T()`. */
    method InitElt(id: u32)
      requires Valid() && id < Times(|chunks|, chunkSize)
      modifies this, chunks
      ensures Valid() && chunks == old(chunks)
      ensures Contents() == old(Contents())[id := zero]
    {
      SetVal(id, zero);
    }

    /** `copyElt(dst, src)`: element `dst` becomes the old value at `src`. */
    method CopyElt(dst: u32, src: u32)
      requires Valid() && dst < Times(|chunks|, chunkSize) && src < Times(|chunks|, chunkSize)
      modifies this, chunks
      ensures Valid() && chunks == old(chunks)
      ensures Contents() == old(Contents())[dst := old(Contents())[src]]
    {
      SetVal(dst, Get(src));
    }

    /** `swapElt(id1, id2)`: the two elements are exchanged. */
    method SwapElt(id1: u32, id2: u32)
      requires Valid() && id1 < Times(|chunks|, chunkSize) && id2 < Times(|chunks|, chunkSize)
      modifies this, chunks
      ensures Valid() && chunks == old(chunks)
      ensures Contents() == Swapped(old(Contents()), id1, id2)
    {
      var v1 := Get(id1);
      SetVal(id1, Get(id2));
      SetVal(id2, v1);
    }

    /** `getChunksPointers(addr, byteBlockSize)`: every chunk, in table
        order, the count cast to `unsigned int` and the byte size of a
        chunk. */
    method GetChunksPointers() returns (count: u32, addr: seq<array<T>>, byteBlockSize: u32)
      requires Valid()
      ensures addr == chunks && count == NbChunks()
      ensures byteBlockSize == BlockBytes()
    {
      byteBlockSize := BlockBytes();
      addr := [];
      for i := 0 to |chunks|
        invariant addr == chunks[..i]
      {
        addr := addr + [chunks[i]];
      }
      count := |addr| % U32;
    }

    /** `save(fs, nbLines)`: the header, then every chunk but the last in
        full, then the last chunk's share of `nbLines`. Besides the source's
        assertion, the lines must fit the last chunk so that the write from it
        stays inside it. */
    method Save(nbLines: u32) returns (img: Image<T>)
      requires Valid()
      requires SaveAssertHolds(|chunks|, nbLines, chunkSize)
      requires LastChunkFits(NbChunks(), nbLines, chunkSize)
      ensures img.header == Header(NbChunks(), nbLines, BlockBytes())
      ensures PayloadLength(NbChunks(), nbLines, chunkSize) <= |Contents()|
      ensures img.payload == Contents()[..PayloadLength(NbChunks(), nbLines, chunkSize)]
    {
      var n := NbChunks();
      img := Image(Header(n, nbLines, BlockBytes()), []);
      if n == 0 {
        return;
      }
      var nbca := n - 1;
      var payload := [];
      for i := 0 to nbca
        invariant payload == Flatten(blocks[..i])
      {
        assert blocks[..i + 1] == blocks[..i] + [blocks[i]];
        FlattenSnoc(blocks[..i], blocks[i]);
        payload := payload + chunks[i][..];
      }
      var nbl := LastLinesAsWritten(n, nbLines, chunkSize);
      FlattenPrefixPartial(blocks, chunkSize, nbca, nbl);
      payload := payload + chunks[nbca][..nbl];
      img := img.(payload := payload);
    }

    /** `load(fs)`: rejects an image whose third header word is not
        `CHUNKSIZE * sizeof(T)`, a product compared in `size_t` and so never
        matched once it reaches 2^32; otherwise resizes the table to the header's
        chunk count and reads the chunks in order from the payload, the last
        one for its share of the header's line count, which must fit the
        chunk. */
    method Load(img: Image<T>) returns (ok: bool)
      requires Valid()
      requires img.header.blockBytes == chunkSize * eltBytes && img.header.nbChunks > 0 ==>
        LastLinesAsWritten(img.header.nbChunks, img.header.nbLines, chunkSize) <= chunkSize
      modifies this, chunks
      ensures Valid()
      ensures ok <==> img.header.blockBytes == chunkSize * eltBytes
      ensures !ok ==> chunks == old(chunks) && Contents() == old(Contents())
      ensures ok ==> |chunks| == img.header.nbChunks
      ensures ok ==> PayloadLength(img.header.nbChunks, img.header.nbLines, chunkSize) <= |Contents()|
      ensures ok ==> Contents() == Overlay(Resized(old(Contents()), Times(|chunks|, chunkSize), zero),
                                           img.payload[..Min(PayloadLength(img.header.nbChunks, img.header.nbLines, chunkSize), |img.payload|)])
    {
      var h := img.header;
      if h.blockBytes != chunkSize * eltBytes {
        return false;
      }
      ok := true;
      SetNbChunks(h.nbChunks);
      if h.nbChunks > 0 {
        ReadChunks(img.payload, LastLinesAsWritten(h.nbChunks, h.nbLines, chunkSize), Times(h.nbChunks - 1, chunkSize));
      }
    }

    /** The reads of `load` once the table has its chunks: every chunk but the
        last in full, then `nbl` elements into the last one. */
    method ReadChunks(data: seq<T>, nbl: nat, ghost full: nat)
      requires Valid() && |chunks| > 0 && nbl <= chunkSize && full == Times(|chunks| - 1, chunkSize)
      modifies this, chunks
      ensures Valid() && chunks == old(chunks)
      ensures full + nbl <= |Contents()|
      ensures Contents() == Overlay(old(Contents()), data[..Min(full + nbl, |data|)])
    {
      ghost var base := Contents();
      var nbca := |chunks| - 1;
      var pos := FullChunkReads(data, nbca);
      pos := ReadNext(nbca, data, pos, nbl, base, full);
    }

    /** The reads of `load` for the chunks before the last: `CHUNKSIZE`
        elements into each of the first `count` chunks, in order. */
    method FullChunkReads(data: seq<T>, count: nat) returns (pos: nat)
      requires Valid() && count < |chunks|
      modifies this, chunks
      ensures Valid() && chunks == old(chunks)
      ensures pos == Min(Times(count, chunkSize), |data|) && pos <= |old(Contents())|
      ensures Contents() == Overlay(old(Contents()), data[..pos])
    {
      ghost var base := Contents();
      pos := 0;
      for i := 0 to count
        invariant Valid() && chunks == old(chunks)
        invariant pos == Min(Times(i, chunkSize), |data|) && pos <= |base|
        invariant Contents() == Overlay(base, data[..pos])
      {
        pos := ReadNext(i, data, pos, chunkSize, base, Times(i, chunkSize));
      }
    }

    /** The read into chunk `i` at its place in the sequence of reads: the
        stream is at the start of the chunk's share of the payload, or
        exhausted, and the elements read so far lie over `base`. */
    method ReadNext(i: nat, data: seq<T>, pos: nat, want: nat, ghost base: seq<T>, ghost at: nat) returns (pos': nat)
      requires Valid() && i < |chunks| && want <= chunkSize && |base| == |Contents()|
      requires at == Times(i, chunkSize) && pos == Min(at, |data|) && pos <= |base|
      requires Contents() == Overlay(base, data[..pos])
      modifies this, chunks[i]
      ensures Valid() && chunks == old(chunks)
      ensures pos' == Min(at + want, |data|) && at + want <= |base| && pos' <= |base|
      ensures Contents() == Overlay(base, data[..pos'])
    {
      TimesBelow(i, |chunks|, chunkSize);
      ghost var bs := blocks;
      var got := ReadChunk(i, data, pos, want);
      ChunkRead(bs, chunkSize, i, at, blocks[i], base, data, pos, got);
      pos' := pos + got;
    }

    /** One `fs.read` of `want` elements from position `pos` of the payload
        into chunk `i`: the elements delivered overwrite the front of the
        chunk and nothing else changes. */
    method ReadChunk(i: nat, data: seq<T>, pos: nat, want: nat) returns (got: nat)
      requires Valid() && i < |chunks| && want <= chunkSize && pos <= |data|
      modifies this, chunks[i]
      ensures Valid() && chunks == old(chunks)
      ensures got == Min(want, |data| - pos)
      ensures blocks == old(blocks)[i := Overlay(old(blocks)[i], data[pos..pos + got])]
    {
      ghost var bs := blocks;
      got := ReadInto(chunks[i], data, pos, want);
      blocks := bs[i := chunks[i][..]];
      forall j | 0 <= j < |chunks| ensures chunks[j].Length == chunkSize && blocks[j] == chunks[j][..] {
        if j != i {
          assert Apart(j, i);
        }
      }
    }
  }

  /** `save` from one array followed by `load` into another of the same
      configuration. The load succeeds exactly when `CHUNKSIZE * sizeof(T)`
      fits the header word; then, when the lines fit the chunks, the second
      array ends with the first one's chunk count and its first `nbLines`
      elements. */
  method SaveThenLoad<T>(src: ChunkArray<T>, dst: ChunkArray<T>, nbLines: u32) returns (ok: bool)
    requires src.Valid() && dst.Valid() && src != dst
    requires dst.chunkSize == src.chunkSize && dst.eltBytes == src.eltBytes
    requires 0 < |src.chunks| && Times(|src.chunks|, src.chunkSize) < U32
    requires LastChunkFits(|src.chunks|, nbLines, src.chunkSize)
    modifies dst, dst.chunks
    ensures dst.Valid() && nbLines <= |old(src.Contents())|
    ensures ok <==> src.chunkSize * src.eltBytes < U32
    ensures !ok ==> dst.chunks == old(dst.chunks) && dst.Contents() == old(dst.Contents())
    ensures ok ==> |dst.chunks| == |old(src.chunks)| && nbLines <= |dst.Contents()|
    ensures ok ==> dst.Contents()[..nbLines] == old(src.Contents())[..nbLines]
  {
    var n, c := |src.chunks|, src.chunkSize;
    TimesIsProduct(n, c);
    MulAtLeast(c, n);
    LastChunkFitsImpliesAssert(n, nbLines, c);
    LastChunkFitsIff(n, nbLines, c);
    ghost var saved := src.Contents();
    ghost var before := dst.Contents();
    var img := src.Save(nbLines);
    ok := dst.Load(img);
    LoadAfterSave(before, saved, n, nbLines, c, dst.zero);
  }

  /** Chunks of 32 four-byte `int`s: three chunks, 7 written at index 50,
      saved with 70 lines and loaded into a fresh array. The header is
      `(3, 70, 128)`, the payload holds 32 + 32 + 6 elements, and the loaded
      array holds 7 at index 50 and `int()` everywhere else. */
  method Scenario() returns (img: Image<int>, loaded: ChunkArray<int>)
    ensures img.header == Header(3, 70, 128) && |img.payload| == 70
    ensures loaded.Valid() && |loaded.chunks| == 3 && |loaded.Contents()| == 96
    ensures loaded.Contents()[50] == 7
    ensures forall k :: 0 <= k < 96 && k != 50 ==> loaded.Contents()[k] == 0
  {
    var a := ScenarioTable();
    assert Times(3, 32) == 96;
    img := a.Save(70);
    loaded := new ChunkArray<int>(32, 4, 0);
    var ok := loaded.Load(img);
  }

  /** The table of `Scenario` before the save. */
  method ScenarioTable() returns (a: ChunkArray<int>)
    ensures a.Valid() && a.chunkSize == 32 && a.eltBytes == 4 && a.zero == 0 && |a.chunks| == 3
    ensures a.Contents() == seq(96, _ => 0)[50 := 7]
  {
    ThirtyTwoIsValid();
    assert Times(3, 32) == 96;
    a := new ChunkArray<int>(32, 4, 0);
    a.SetNbChunks(3);
    a.SetVal(50, 7);
    assert a.Contents() == seq(96, _ => 0)[50 := 7];
  }
}
