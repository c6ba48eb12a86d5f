# cgogn `ChunkArray` in Dafny

This project models the chunked attribute storage of CGoGN,
`cgogn/core/container/chunk_array.h`, and proves properties of the model. It
covers the two class templates in that header.

- **`ChunkArray<CHUNKSIZE, T>`.** A growable table of elements kept as a
  vector of owned blocks ("chunks") of `CHUNKSIZE` elements each. Element `i`
  lives in chunk `i / CHUNKSIZE`, at slot `i % CHUNKSIZE`.
- **`ChunkArray<CHUNKSIZE, bool>`.** The bit-packed form. A chunk is
  `CHUNKSIZE / 32` unsigned 32-bit words. Element `i` is bit `i % 32` of word
  `(i % CHUNKSIZE) / 32` of chunk `i / CHUNKSIZE`.

Both forms grow and shrink their chunk table and report their size. They
read, write, reset, copy and swap elements in place. They write themselves
to a stream and read themselves back as a three-word header
`(chunk count, line count, bytes per chunk)` followed by the chunk data.

The files are:

- `layout.dfy` (module `Layout`): shared arithmetic and value-level views.
  - Arithmetic: unsigned 32-bit values (`u32`, `U32`), the chunk-size rule,
    and the product `Times` unfolded one chunk at a time.
  - Views: `Flatten` (chunks in table order), `Resized`, `Swapped`, `Overlay`
    (a prefix laid over a sequence) and `Spliced` (a window rewritten).
- `bitwords.dfy` (module `BitWords`): a 32-bit word as its 32 bits, least
  significant first, so bit `y` is the one the mask `1u << y` selects.
  - A byte is 8 bits in the same order.
  - The bytes of an array of words are laid out as on a little-endian host.
- `machinewords.dfy` (module `MachineWords`): the bit-by-bit words against
  the machine's `bv32` words, for the mask and the operators `&`, `|`, `~`.
- `streams.dfy` (module `Streams`): the stream image, `Image(header,
  payload)`, and one `fs.read` into an array.
  - For the generic form the payload is a sequence of elements.
  - For the bit-packed form it is a sequence of bytes.
- `chunkarray.dfy` (module `ChunkArrays`): class `ChunkArray<T>` and the
  generic `save`/`load` arithmetic.
- `boolchunkarray.dfy` (module `BoolChunkArrays`): class `BoolChunkArray`
  and the bit-packed `save`/`load` arithmetic.

**How the classes are modelled.** Each class keeps the chunk vector as
`chunks: seq<array<...>>`. It also keeps a ghost mirror `blocks` of the
chunks' contents. `Valid()` states the following:
- every chunk has its size;
- the mirror matches the arrays;
- no chunk appears twice in the table.

**Flat views.** Each class also has a flat view of the whole table, and
every operation is specified against it:
- `Contents(): seq<T>` for the generic form;
- `Bits(): seq<bool>` for the bit-packed form.

**Parameters.**
- `CHUNKSIZE` is a constant field of type `ChunkSize`: a power of two of at
  least 32 that fits an `unsigned int` (`chunk_array.h:38`). The constructor
  requires its argument to be one.
- `sizeof(T)` is a positive constant field.
- `T()` is a constructor parameter, `zero`.
- Every `unsigned int` computation whose result can exceed 2^32 is written
  with explicit reduction modulo 2^32. This covers the chunk count, the
  capacity, the last-chunk counts of `save`/`load`, and `CHUNKSIZE *
  sizeof(T)` where it is stored in an `unsigned int` (the third header word of
  `save` and the block size of `getChunksPointers`).
- The check of `load` compares the third header word with `CHUNKSIZE *
  sizeof(T)` computed in `size_t`, so the product is not reduced there. When
  it reaches 2^32, no header matches and `load` always fails.

## Model

| member | source | states |
|---|---|---|
| Layout.ChunkSizeWords | cgogn/core/container/chunk_array.h:38 | A chunk size that is a power of two and at least 32 is a whole number of 32-bit words and of bytes (`CHUNKSIZE / 8 == 4 * (CHUNKSIZE / 32)`). |
| Layout.Locate | cgogn/core/container/chunk_array.h:140-153 | An index below the table length names an existing chunk `i / CHUNKSIZE` and a slot `i % CHUNKSIZE` inside it, and chunk start plus slot gives the index back. |
| Layout.SlotOf | cgogn/core/container/chunk_array.h:140-153 | The inverse of `Locate`: the flat index of slot `s` of chunk `j` splits back into `j` and `s`. Together with `Locate`, distinct indices have distinct locations. |
| Layout.Resized | cgogn/core/container/chunk_array.h:90-103 | The table after `setNbChunks`: the new length, the old elements kept below the new length, the fill value after the old length. |
| Layout.ResizedGrow | cgogn/core/container/chunk_array.h:92-96 | Growing by one chunk after growing to `m` elements is growing to `m` plus a chunk, so the loop of `addChunk` calls resizes once. |
| Layout.Swapped | cgogn/core/container/chunk_array.h:210-213 | The exchange of two positions: each gets the other's value, every other position is unchanged, and the multiset of values is kept. |
| Layout.SwappedTwice | cgogn/core/container/chunk_array.h:210-213 | Swapping the same two elements twice restores the table. |
| Layout.Overlay | cgogn/core/container/chunk_array.h:262-269 | What the reads of `load` leave: the first `\|p\|` positions hold `p` and the rest are unchanged. |
| Layout.OverlayFront | cgogn/core/container/chunk_array.h:262-269 | Laying a prefix of a saved table over any table reproduces the saved table up to the length of that prefix. |
| ChunkArrays.SaveAssertHolds | cgogn/core/container/chunk_array.h:223 | The assertion `nbLines / CHUNKSIZE <= nbChunks` of `save` holds exactly when `nbLines < (nbChunks + 1) * CHUNKSIZE`. |
| ChunkArrays.PayloadLength | cgogn/core/container/chunk_array.h:232-241 | The number of elements `save` writes: none without a chunk, and exactly `nbLines` when the lines reach the last chunk. |
| ChunkArrays.LastLinesAsWritten | cgogn/core/container/chunk_array.h:240 | `nbLines - nbca * CHUNKSIZE` in unsigned arithmetic. It is the difference when the lines reach the last chunk, and `2^32` minus the shortfall when they do not. |
| ChunkArrays.LastChunkFitsIff | cgogn/core/container/chunk_array.h:223-241 | With no wrap-around of `nbChunks * CHUNKSIZE`, the last-chunk count is at most `CHUNKSIZE` exactly when `(nbChunks-1)*CHUNKSIZE <= nbLines <= nbChunks*CHUNKSIZE`, and then the payload holds exactly `nbLines` elements. |
| ChunkArrays.SaveAssertAdmitsOverrun | cgogn/core/container/chunk_array.h:223 | Two inputs that pass the assertion of `save` but do not fit the last chunk: one overruns it, the other wraps the count. |
| ChunkArrays.LastChunkFitsImpliesAssert | cgogn/core/container/chunk_array.h:223 | The corrected guard implies the source's assertion. |
| ChunkArrays.LoadAfterSave | cgogn/core/container/chunk_array.h:216-272 | When the lines fit, reading the payload of `save` over any table resized to the saved chunk count gives back the first `nbLines` saved elements. |
| ChunkArrays.ChunkRead | cgogn/core/container/chunk_array.h:262-269 | One chunk's read continues the prefix already laid over the table by the reads before it. |
| ChunkArrays.ChunkArray.constructor | cgogn/core/container/chunk_array.h:54-57 | An empty table with the given chunk size, element size and `T()`. |
| ChunkArrays.ChunkArray.BlockBytes | cgogn/core/container/chunk_array.h:221 | `CHUNKSIZE * sizeof(T)` stored in an `unsigned int`: equal to the product exactly when the product is below 2^32. |
| ChunkArrays.ChunkArray.Clone | cgogn/core/container/chunk_array.h:72-75 | A fresh, empty array of the same configuration. |
| ChunkArrays.ChunkArray.AddChunk | cgogn/core/container/chunk_array.h:80-83 | One fresh chunk is appended, the old chunks are untouched, and the table gains `CHUNKSIZE` copies of `T()`. |
| ChunkArrays.ChunkArray.SetNbChunks | cgogn/core/container/chunk_array.h:90-103 | There are now `nbc` chunks and `getNbChunks() == nbc`. Chunks below `min(nbc, old count)` are kept, new ones are fresh, and the table is resized to `nbc * CHUNKSIZE` with `T()`. |
| ChunkArrays.ChunkArray.Grow | cgogn/core/container/chunk_array.h:92-96 | The growing loop: `addChunk` until there are `nbc` chunks, keeping the old chunks and filling with `T()`. |
| ChunkArrays.ChunkArray.NbChunks | cgogn/core/container/chunk_array.h:110-113 | The chunk count, cast to `unsigned int`. |
| ChunkArrays.ChunkArray.Capacity | cgogn/core/container/chunk_array.h:119-122 | `nbChunks * CHUNKSIZE` in unsigned arithmetic. It is the table length when that fits 32 bits. |
| ChunkArrays.ChunkArray.CapacityIsLength | cgogn/core/container/chunk_array.h:119-122 | Without wrap-around, the capacity is the number of elements of the table. |
| ChunkArrays.ChunkArray.Clear | cgogn/core/container/chunk_array.h:128-133 | No chunks remain, so `getNbChunks() == 0`, `capacity() == 0` and the table is empty. |
| ChunkArrays.ChunkArray.Get | cgogn/core/container/chunk_array.h:140-153 | Reading chunk `i / CHUNKSIZE`, slot `i % CHUNKSIZE`, gives element `i` of the table. |
| ChunkArrays.ChunkArray.SetVal | cgogn/core/container/chunk_array.h:160-163 | Element `i` becomes `v`, every other element is unchanged, and the chunk vector is the same. |
| ChunkArrays.ChunkArray.InitElt | cgogn/core/container/chunk_array.h:189-192 | Element `id` becomes `T()` and nothing else changes. |
| ChunkArrays.ChunkArray.CopyElt | cgogn/core/container/chunk_array.h:200-203 | Element `dst` becomes the old element `src` and nothing else changes. |
| ChunkArrays.ChunkArray.SwapElt | cgogn/core/container/chunk_array.h:210-213 | The table becomes `Swapped(old table, id1, id2)`. |
| ChunkArrays.ChunkArray.GetChunksPointers | cgogn/core/container/chunk_array.h:172-183 | Every chunk in table order, the count equal to `getNbChunks()`, and `CHUNKSIZE * sizeof(T)` as the block byte size. |
| ChunkArrays.ChunkArray.Save | cgogn/core/container/chunk_array.h:216-242 | The header `(nbChunks, nbLines, CHUNKSIZE*sizeof(T))`, then the first `PayloadLength` elements of the table. With no chunk, only the header is written. |
| ChunkArrays.ChunkArray.Load | cgogn/core/container/chunk_array.h:245-272 | Returns false exactly when header word 2 differs from the unreduced product `CHUNKSIZE*sizeof(T)`, and then nothing changes. Otherwise the chunk count becomes header word 0, and the table resized with `T()` gets the payload, up to the header's share, laid over its front. |
| ChunkArrays.ChunkArray.ReadChunks | cgogn/core/container/chunk_array.h:262-269 | The reads of `load`: the full chunks, then the last one's share, laid over the table in order. |
| ChunkArrays.ChunkArray.FullChunkReads | cgogn/core/container/chunk_array.h:263-266 | The reads into the chunks before the last lay the first `min(count * CHUNKSIZE, payload)` elements over the table. |
| ChunkArrays.ChunkArray.ReadNext | cgogn/core/container/chunk_array.h:265-269 | One read at its place in the sequence advances the stream position by what the chunk takes and extends the overlaid prefix accordingly. |
| ChunkArrays.ChunkArray.ReadChunk | cgogn/core/container/chunk_array.h:265 | One `fs.read` into chunk `i`: the elements delivered overwrite the chunk's front, and no other chunk changes. |
| ChunkArrays.SaveThenLoad | cgogn/core/container/chunk_array.h:216-272 | `save` from one array and `load` into another of the same configuration, with the lines fitting the chunks. Loading succeeds exactly when `CHUNKSIZE*sizeof(T)` is below 2^32, and then the chunk count and the first `nbLines` elements are reproduced. Otherwise the second array is unchanged. |
| ChunkArrays.Scenario | cgogn/core/container/chunk_array.h:160-272 | A worked case: 32-element chunks of 4-byte `int`, three chunks, 7 written at index 50, 70 lines. The header is `(3, 70, 128)`, the payload has 70 elements, and the loaded table has 7 at index 50 and 0 elsewhere. |
| ChunkArrays.ScenarioTable | cgogn/core/container/chunk_array.h:90-163 | The table of `Scenario` before the save: three chunks of zeros with 7 at index 50. |
| Streams.ReadInto | cgogn/core/container/chunk_array.h:265-269 | `fs.read` of `want` elements delivers `min(want, what remains)` of them into the front of the chunk. |
| Streams.ReadBytesInto | cgogn/core/container/chunk_array.h:507-512 | `fs.read` of `want` bytes into a chunk of words overwrites the front of the chunk's bits with the bits of the bytes delivered. |
| MachineWords.MaskIsShift | cgogn/core/container/chunk_array.h:362 | The machine word `1u << y`, read bit by bit, is `Mask(y)`: bit `y` set and no other. |
| MachineWords.AndIsBitwise | cgogn/core/container/chunk_array.h:416 | The bits of the machine `a & b` are `WordAnd` of the bits of `a` and `b`. |
| MachineWords.OrIsBitwise | cgogn/core/container/chunk_array.h:373 | The bits of the machine `a \| b` are `WordOr` of the bits of `a` and `b`. |
| MachineWords.NotIsBitwise | cgogn/core/container/chunk_array.h:363 | The bits of the machine `~a` are `WordNot` of the bits of `a`. |
| BitWords.BitIsSet | cgogn/core/container/chunk_array.h:414-416 | `(w & (1u << y)) != 0u` is true exactly when bit `y` of `w` is set. |
| BitWords.SetBit | cgogn/core/container/chunk_array.h:372-373 | `w \| (1u << y)` is `w` with bit `y` set and every other bit kept. |
| BitWords.ClearBit | cgogn/core/container/chunk_array.h:362-363 | `w & ~(1u << y)` is `w` with bit `y` cleared and every other bit kept. |
| BitWords.BitsOf | cgogn/core/container/chunk_array.h:479 | A byte string has 8 bits per byte. |
| BitWords.WordBytes | cgogn/core/container/chunk_array.h:479-484 | The first `k` bytes of an array of words, as `reinterpret_cast<const char*>` hands them to the stream, carry the first `8k` bits of the words. |
| BitWords.PatchAll | cgogn/core/container/chunk_array.h:508-512 | Copying a byte string word by word over a chunk lays its bits over the front of the chunk's bit string. |
| BoolChunkArrays.BitAddress | cgogn/core/container/chunk_array.h:407-417 | For a bit index below the table length, the chunk `i / CHUNKSIZE` and the word `(i % CHUNKSIZE) / 32` exist. The bit in the word, `(i % CHUNKSIZE) % 32`, is `i % 32`, and the word starts at bit `i - i % 32` of the table. |
| BoolChunkArrays.BitAddressInjective | cgogn/core/container/chunk_array.h:407-417 | Two indices with the same chunk, word and bit are equal, so distinct indices have distinct locations. |
| BoolChunkArrays.WordCount | cgogn/core/container/chunk_array.h:343-346 | `m` chunks of `CHUNKSIZE` bits hold `m * CHUNKSIZE / 32` words. |
| BoolChunkArrays.CapacityWords | cgogn/core/container/chunk_array.h:343-346 | Without wrap-around, the unsigned expression of `capacity()` is that word count. |
| BoolChunkArrays.DirtyClear | cgogn/core/container/chunk_array.h:390-403 | After `setFalseDirty(i)`, index `k` reads false exactly when it is in the chunk and the word of `i`, and reads as before otherwise. |
| BoolChunkArrays.RoundUp32 | cgogn/core/container/chunk_array.h:458-459 | The rounding of `nbLines` to a multiple of 32, which is at least `nbLines` and less than `nbLines + 32` unless the unsigned arithmetic wraps, in which case it is 0. |
| BoolChunkArrays.BoolLastBytesAsWritten | cgogn/core/container/chunk_array.h:483-484 | The last-chunk byte count as the code computes it, `(nbLines - nbca*CHUNKSIZE/8u) / 8u`. With one chunk it is `nbLines / 8`. |
| BoolChunkArrays.BoolLastBytes | cgogn/core/container/chunk_array.h:483-484 | The corrected last-chunk byte count, `(nbLines - nbca*CHUNKSIZE) / 8u`: the last chunk's share of the lines in bytes when the lines reach the last chunk. With one chunk it is `nbLines / 8`. |
| BoolChunkArrays.BoolPayloadBytes | cgogn/core/container/chunk_array.h:475-484 | The number of bytes `save` writes with the count as written: none without a chunk, and `nbLines / 8` with one chunk. |
| BoolChunkArrays.BoolLastBytesOverrun | cgogn/core/container/chunk_array.h:466-484 | Chunks of 32 bits, three of them, 70 lines: the rounded lines fit and pass the assertion, yet the count as written takes 11 bytes from a 4-byte chunk where 4 are intended. With two chunks and 32 lines the count as written, 3, stays inside the chunk but exceeds the intended 0. |
| BoolChunkArrays.BoolLastBytesFit | cgogn/core/container/chunk_array.h:483-484 | Corrected: when the rounded lines fit, the corrected count covers exactly the last chunk's share and stays inside the chunk. The count as written is never smaller, and with one chunk the two agree. |
| BoolChunkArrays.PayloadCoversLines | cgogn/core/container/chunk_array.h:475-484 | Whenever the count as written stays inside the last chunk (and the chunks fit 32 bits), the payload covers all the rounded lines, arrays with more chunks than the lines need included. |
| BoolChunkArrays.CorrectedPayloadLines | cgogn/core/container/chunk_array.h:475-484 | Corrected: when the rounded lines fit the chunks, the full chunks plus the corrected last count hold exactly `nbLines` bits. |
| BoolChunkArrays.PayloadBits | cgogn/core/container/chunk_array.h:475-484 | The bytes of the full chunks followed by the last chunk's bytes carry the first bits of the table. |
| BoolChunkArrays.BoolLoadAfterSave | cgogn/core/container/chunk_array.h:455-515 | When the count as written stays inside the last chunk, the payload holds at least the rounded lines, surplus chunks included. Reading it, with the same count, over any table resized to the saved chunk count gives back the first `nbLines` saved bits. |
| BoolChunkArrays.WordStore | cgogn/core/container/chunk_array.h:363 | Storing a word at position `x` of a chunk rewrites bits `32x .. 32x+31` of the chunk and no other bits. |
| BoolChunkArrays.WordSplice | cgogn/core/container/chunk_array.h:363 | Storing word `x` of chunk `jj` rewrites the 32 bits of the table starting at bit `Times(jj, CHUNKSIZE) + 32x`, and no others. |
| BoolChunkArrays.ChunkRead | cgogn/core/container/chunk_array.h:507-512 | One chunk's byte read continues the prefix already laid over the table by the reads before it. |
| BoolChunkArrays.ZeroWordsBits | cgogn/core/container/chunk_array.h:315 | Zero-initialised words hold only false bits. |
| BoolChunkArrays.BoolChunkArray.constructor | cgogn/core/container/chunk_array.h:293-296 | An empty table with the given chunk size. |
| BoolChunkArrays.BoolChunkArray.BlockBytes | cgogn/core/container/chunk_array.h:464 | `CHUNKSIZE / 8`, the byte size of a chunk: eight times it is `CHUNKSIZE`. |
| BoolChunkArrays.BoolChunkArray.Clone | cgogn/core/container/chunk_array.h:306-309 | A fresh, empty array of the same chunk size. |
| BoolChunkArrays.BoolChunkArray.AddChunk | cgogn/core/container/chunk_array.h:312-316 | One fresh chunk of `CHUNKSIZE / 32` zero words is appended, the old chunks are untouched, and the table gains `CHUNKSIZE` false bits. |
| BoolChunkArrays.BoolChunkArray.SetNbChunks | cgogn/core/container/chunk_array.h:320-333 | There are now `nbc` chunks and `getNbChunks() == nbc`. Chunks below `min(nbc, old count)` are kept, new ones are fresh, and the bits are resized to `nbc * CHUNKSIZE` with false. |
| BoolChunkArrays.BoolChunkArray.Grow | cgogn/core/container/chunk_array.h:322-326 | The growing loop: `addChunk` until there are `nbc` chunks, keeping the old chunks and filling with false. |
| BoolChunkArrays.BoolChunkArray.NbChunks | cgogn/core/container/chunk_array.h:337-340 | The chunk count, cast to `unsigned int`. |
| BoolChunkArrays.BoolChunkArray.Capacity | cgogn/core/container/chunk_array.h:343-346 | `nbChunks * CHUNKSIZE / 32` in unsigned arithmetic. It is the number of words, not of bits, when the product fits 32 bits. |
| BoolChunkArrays.BoolChunkArray.CapacityIsWords | cgogn/core/container/chunk_array.h:343-346 | Without wrap-around, 32 times the capacity is the number of bits of the table. |
| BoolChunkArrays.BoolChunkArray.Clear | cgogn/core/container/chunk_array.h:349-354 | No chunks remain, so `getNbChunks() == 0`, `capacity() == 0` and the bit table is empty. |
| BoolChunkArrays.BoolChunkArray.WordAt | cgogn/core/container/chunk_array.h:407-417 | Word `x` of chunk `jj` is the 32 bits of the table starting at bit `Times(jj, CHUNKSIZE) + 32x`. |
| BoolChunkArrays.BoolChunkArray.PutWord | cgogn/core/container/chunk_array.h:363 | Assigning word `x` of chunk `jj` rewrites exactly that window of 32 bits of the table. |
| BoolChunkArrays.BoolChunkArray.StoreWord | cgogn/core/container/chunk_array.h:363 | The word assignment changes chunk `jj`'s word `x` and no other chunk. |
| BoolChunkArrays.BoolChunkArray.Get | cgogn/core/container/chunk_array.h:407-417 | Testing bit `y` of word `x` of chunk `jj` with the mask `1u << y` gives bit `i` of the table. |
| BoolChunkArrays.BoolChunkArray.SetTrue | cgogn/core/container/chunk_array.h:366-374 | Bit `i` becomes true and every other bit is unchanged. |
| BoolChunkArrays.BoolChunkArray.SetFalse | cgogn/core/container/chunk_array.h:356-364 | Bit `i` becomes false and every other bit is unchanged. |
| BoolChunkArrays.BoolChunkArray.SetVal | cgogn/core/container/chunk_array.h:376-388 | Bit `i` becomes `b` and every other bit is unchanged. |
| BoolChunkArrays.BoolChunkArray.SetFalseDirty | cgogn/core/container/chunk_array.h:398-403 | The whole 32-bit word holding bit `i`, which starts at bit `i - i % 32`, becomes zero. `DirtyClear` states the effect index by index. |
| BoolChunkArrays.BoolChunkArray.InitElt | cgogn/core/container/chunk_array.h:435-438 | Bit `id` becomes false and nothing else changes. |
| BoolChunkArrays.BoolChunkArray.CopyElt | cgogn/core/container/chunk_array.h:441-444 | Bit `dst` becomes the old bit `src` and nothing else changes. |
| BoolChunkArrays.BoolChunkArray.SwapElt | cgogn/core/container/chunk_array.h:447-452 | The bit table becomes `Swapped(old bits, id1, id2)`. |
| BoolChunkArrays.BoolChunkArray.GetChunksPointers | cgogn/core/container/chunk_array.h:421-432 | Every chunk in table order, the count equal to `getNbChunks()`, and `CHUNKSIZE / 8` as the block byte size. |
| BoolChunkArrays.BoolChunkArray.Save | cgogn/core/container/chunk_array.h:455-485 | The header `(nbChunks, nbLines rounded up to 32, CHUNKSIZE/8)`, then `BoolPayloadBytes` bytes, with the last chunk's count as written at line 483, that carry the first bits of the table. With no chunk, only the header is written. Requires that count not to run past the last chunk. |
| BoolChunkArrays.BoolChunkArray.FullChunkBytes | cgogn/core/container/chunk_array.h:477-480 | The `CHUNKSIZE / 8` bytes of each chunk before the last, which carry the bits of those chunks in order. |
| BoolChunkArrays.BoolChunkArray.Load | cgogn/core/container/chunk_array.h:488-515 | Returns false exactly when header word 2 is not `CHUNKSIZE / 8`, and then nothing changes. Otherwise the chunk count becomes header word 0, and the bits resized with false get the payload's bits, up to the header's share with the last count as written at line 511, laid over their front. Requires that count not to run past the last chunk. |
| BoolChunkArrays.BoolChunkArray.ReadChunks | cgogn/core/container/chunk_array.h:505-512 | The reads of `load`: the full chunks, then the last one's share, laid over the bits in order. |
| BoolChunkArrays.BoolChunkArray.FullChunkReads | cgogn/core/container/chunk_array.h:506-508 | The reads into the chunks before the last lay the bits of the first `min(count * CHUNKSIZE / 8, payload)` bytes over the table. |
| BoolChunkArrays.BoolChunkArray.ReadNext | cgogn/core/container/chunk_array.h:507-512 | One read at its place in the sequence advances the stream position by what the chunk takes and extends the overlaid prefix accordingly. |
| BoolChunkArrays.BoolChunkArray.ReadChunk | cgogn/core/container/chunk_array.h:508 | One `fs.read` of bytes into chunk `i`: their bits overwrite the chunk's front, and no other chunk changes. |
| BoolChunkArrays.BoolSaveThenLoad | cgogn/core/container/chunk_array.h:455-515 | `save` from one bit array and `load` into another of the same chunk size, under the assertion of line 466 and with the last count as written not running past the last chunk; arrays with surplus chunks are included. Loading succeeds, and the chunk count and the bits up to the rounded line count are reproduced. |

## Left out

- The base class `ChunkArrayGen<CHUNKSIZE>` (`chunk_array_gen.h`, which is not part of this model) is not a Dafny type. Both classes carry the overriding members under the same names, and virtual dispatch through the base is not modelled.
- The destructor, the `delete[]` of dropped chunks and `reserve(1024)` are left out: memory is managed by Dafny, and reserving capacity has no observable effect.
- `getChunksPointers` returns the chunk arrays themselves in place of untyped `void*` addresses.
- The streams are values. `save` returns an `Image` and `load` takes one. `std::cerr` messages and stream failure states are not modelled. A payload shorter than requested makes a read deliver what is left, as `istream::read` does.
- Host endianness is not modelled: the header words are numbers. For the bit-packed form, the bytes of a word are taken in little-endian order.
- `sizeof(T)` and the byte representation of `T` are not modelled: the generic payload is a sequence of `T` values, and `sizeof(T)` enters only the third header word.
- A word is a sequence of 32 bits, not a machine integer. The masks `1u << y` and the operators `&`, `|` and `~` are written out bit by bit (`Mask`, `WordAnd`, `WordOr`, `WordNot`), and `machinewords.dfy` proves them equal to the machine operators on `bv32`.
- ChunkArrays.ChunkArray.Save: requires `LastChunkFits` in addition to the assertion of line 223. Without it, the last write reads past the end of the last chunk, which is undefined behaviour the model does not describe (see Findings).
- ChunkArrays.ChunkArray.Load: requires that a header with the right block size gives a last-chunk count of at most `CHUNKSIZE`, whatever the length of the payload. Otherwise the read would overrun the chunk.
- BoolChunkArrays.BoolChunkArray.Save: writes the last-chunk byte count as written at line 483, `BoolLastBytesAsWritten`, and requires that it not exceed `CHUNKSIZE / 8`. Otherwise the write reads past the end of the last chunk (see Findings).
- BoolChunkArrays.BoolChunkArray.Load: reads the last-chunk byte count as written at line 511 and requires that it not exceed `CHUNKSIZE / 8`. Otherwise the read overruns the chunk.
- BoolChunkArrays.BoolSaveThenLoad: carries the same requirement on the count as written, and requires the chunks to hold fewer than 2^32 bits.
- BoolChunkArrays.BoolChunkArray.Capacity: follows the code and returns the number of 32-bit words, `nbChunks * CHUNKSIZE / 32`, not the number of addressable bits.
- Indices passed to `operator[]`, `setVal`, `setTrue`, `setFalse`, `setFalseDirty`, `initElt`, `copyElt` and `swapElt` must be below the table length. The code does not check them, and an index beyond the table is undefined behaviour.

## Findings

| source | as written | input that shows it | evidently intended | confidence | as-written member | corrected member |
|---|---|---|---|---|---|---|
| cgogn/core/container/chunk_array.h:223 | `save` checks only `nbLines / CHUNKSIZE <= nbChunks` before writing `nbLines - nbca*CHUNKSIZE` elements from the last chunk | `CHUNKSIZE = 32`, one chunk, `nbLines = 63`: 63 elements are read from a 32-element chunk. Three chunks, `nbLines = 10`: the count wraps to `2^32 - 54` | `(nbChunks-1)*CHUNKSIZE <= nbLines <= nbChunks*CHUNKSIZE` | not executed | ChunkArrays.SaveAssertAdmitsOverrun | ChunkArrays.LastChunkFitsIff |
| cgogn/core/container/chunk_array.h:483-484, 511-512 | the last-chunk byte count is `(nbLines - nbca*CHUNKSIZE/8u) / 8u`, which subtracts a byte count from a bit count | `CHUNKSIZE = 32`, three chunks, `nbLines = 70` (rounded to 96): 11 bytes are written from, and read into, a 4-byte chunk | `(nbLines - nbca*CHUNKSIZE) / 8u`, the last chunk's share of the lines | not executed | BoolChunkArrays.BoolLastBytesOverrun | BoolChunkArrays.BoolLastBytesFit |
