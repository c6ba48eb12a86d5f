/** The 32-bit words of the bit-packed chunk array and the bytes that
    `save`/`load` transfer. A word is modelled by its 32 bits, least
    significant first, so bit `y` is the one selected by the mask `1u << y`;
    a byte is its 8 bits in the same order. Byte `k` of a word holds the word's
    bits `8 * k .. 8 * k + 7`, the layout of a little-endian host. */
module BitWords {
  import opened Layout

  type Word = w: seq<bool> | |w| == 32 witness seq(32, _ => false)

  type Byte = b: seq<bool> | |b| == 8 witness seq(8, _ => false)

  /** `0u`, the value a freshly allocated chunk word holds. */
  const ZeroWord: Word := seq(32, _ => false)

  /** `1u << y`: the word whose only set bit is bit `y`. */
  function Mask(y: nat): (m: Word)
    requires y < 32
    ensures forall z :: 0 <= z < 32 ==> (m[z] <==> z == y)
  {
    seq(32, z => z == y)
  }

  /** `a & b`, bit by bit. */
  function WordAnd(a: Word, b: Word): (r: Word)
    ensures forall z :: 0 <= z < 32 ==> r[z] == (a[z] && b[z])
  {
    seq(32, z requires 0 <= z < 32 => a[z] && b[z])
  }

  /** `a | b`, bit by bit. */
  function WordOr(a: Word, b: Word): (r: Word)
    ensures forall z :: 0 <= z < 32 ==> r[z] == (a[z] || b[z])
  {
    seq(32, z requires 0 <= z < 32 => a[z] || b[z])
  }

  /** `~a`, bit by bit. */
  function WordNot(a: Word): (r: Word)
    ensures forall z :: 0 <= z < 32 ==> r[z] == !a[z]
  {
    seq(32, z requires 0 <= z < 32 => !a[z])
  }

  /** `(w & (1u << y)) != 0u`: the test is true exactly when bit `y` of `w`
      is set. */
  function BitIsSet(w: Word, y: nat): (b: bool)
    requires y < 32
    ensures b == w[y]
  {
    MaskTest(w, y);
    !IsZero(WordAnd(w, Mask(y)))
  }

  /** `w == 0u`. */
  predicate IsZero(w: Word) {
    forall z :: 0 <= z < 32 ==> !w[z]
  }

  lemma MaskTest(w: Word, y: nat)
    requires y < 32
    ensures !IsZero(WordAnd(w, Mask(y))) == w[y]
  {
    var r := WordAnd(w, Mask(y));
    if w[y] {
      assert r[y];
    }
  }

  /** `w | (1u << y)`: bit `y` becomes set and every other bit is kept. */
  function SetBit(w: Word, y: nat): (r: Word)
    requires y < 32
    ensures r == w[y := true]
  {
    MaskSet(w, y);
    WordOr(w, Mask(y))
  }

  lemma MaskSet(w: Word, y: nat)
    requires y < 32
    ensures WordOr(w, Mask(y)) == w[y := true]
  {
    assert forall z :: 0 <= z < 32 ==> WordOr(w, Mask(y))[z] == w[y := true][z];
  }

  /** `w & ~(1u << y)`: bit `y` becomes clear and every other bit is kept. */
  function ClearBit(w: Word, y: nat): (r: Word)
    requires y < 32
    ensures r == w[y := false]
  {
    MaskClear(w, y);
    WordAnd(w, WordNot(Mask(y)))
  }

  lemma MaskClear(w: Word, y: nat)
    requires y < 32
    ensures WordAnd(w, WordNot(Mask(y))) == w[y := false]
  {
    assert forall z :: 0 <= z < 32 ==> WordAnd(w, WordNot(Mask(y)))[z] == w[y := false][z];
  }

  /** The bits of a byte string, byte by byte. */
  function BitsOf(bytes: seq<Byte>): (bits: seq<bool>)
    ensures |bits| == 8 * |bytes|
  {
    FlattenLength(bytes, 8);
    TimesIsProduct(|bytes|, 8);
    Flatten(bytes)
  }

  /** The bits of an array of words, word by word: the memory of the array
      on a little-endian host. */
  function WordBits(ws: seq<Word>): (bits: seq<bool>)
    ensures |bits| == 32 * |ws|
  {
    FlattenLength(ws, 32);
    TimesIsProduct(|ws|, 32);
    Flatten(ws)
  }

  lemma BitsOfConcat(a: seq<Byte>, b: seq<Byte>)
    ensures BitsOf(a + b) == BitsOf(a) + BitsOf(b)
  {
    FlattenConcat(a, b);
  }

  /** The first `n` bytes of a bit string. */
  function BytesOf(bits: seq<bool>, n: nat): (r: seq<Byte>)
    requires 8 * n <= |bits|
    ensures |r| == n
    ensures forall j :: 0 <= j < n ==> r[j] == bits[8 * j .. 8 * j + 8]
  {
    seq(n, j requires 0 <= j < n => bits[8 * j .. 8 * j + 8])
  }

  /** Reading back the bits of the first `n` bytes gives the first `8 * n`
      bits. */
  lemma BytesOfBits(bits: seq<bool>, n: nat)
    requires 8 * n <= |bits|
    ensures Flatten(BytesOf(bits, n)) == bits[..8 * n]
  {
    var bs := BytesOf(bits, n);
    FlattenLength(bs, 8);
    TimesIsProduct(n, 8);
    forall k | 0 <= k < 8 * n ensures Flatten(bs)[k] == bits[k] {
      FlattenIndex(bs, 8, k);
    }
  }

  /** Word `w`, the `base`-th bit onwards, with its bits replaced by those of
      `src` that exist: what a byte copy of `src` leaves in the word. */
  function Patch(w: Word, src: seq<bool>, base: nat): (r: Word)
    ensures forall y :: 0 <= y < 32 ==> r[y] == if base + y < |src| then src[base + y] else w[y]
  {
    seq(32, y requires 0 <= y < 32 => if base + y < |src| then src[base + y] else w[y])
  }

  /** Patching every word of a chunk with the bits at its own offset writes
      `src` over the front of the chunk's bit string. */
  lemma PatchAll(ws: seq<Word>, src: seq<bool>)
    requires |src| <= 32 * |ws|
    ensures WordBits(seq(|ws|, w requires 0 <= w < |ws| => Patch(ws[w], src, 32 * w))) == Overlay(WordBits(ws), src)
  {
    var ps := seq(|ws|, w requires 0 <= w < |ws| => Patch(ws[w], src, 32 * w));
    FlattenLength(ps, 32);
    FlattenLength(ws, 32);
    TimesIsProduct(|ws|, 32);
    forall k | 0 <= k < 32 * |ws| ensures Flatten(ps)[k] == Overlay(Flatten(ws), src)[k] {
      FlattenIndex(ps, 32, k);
      FlattenIndex(ws, 32, k);
    }
  }

  /** The first `k` bytes of the memory of an array of words, as a
      `reinterpret_cast<const char*>` of it hands them to a stream: their
      bits are the first `8 * k` bits of the words. */
  function WordBytes(ws: seq<Word>, k: nat): (r: seq<Byte>)
    requires k <= 4 * |ws|
    ensures |r| == k && BitsOf(r) == WordBits(ws)[..8 * k]
  {
    BytesOfBits(WordBits(ws), k);
    BytesOf(WordBits(ws), k)
  }
}
