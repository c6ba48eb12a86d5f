/** Index arithmetic shared by both chunk arrays: 32-bit unsigned values, the
    block-size rule, the two-level (chunk, slot) address space, and the
    value-level views (flattening, resizing, swapping, overlaying a prefix)
    that the classes are specified against. */
module Layout {

  /** The width of C++ `unsigned int` on the platforms the library targets. */
  const U32: int := 0x1_0000_0000

  type u32 = x: int | 0 <= x < U32

  predicate IsPowerOfTwo(n: nat)
    decreases n
  {
    n == 1 || (n >= 2 && n % 2 == 0 && IsPowerOfTwo(n / 2))
  }

  /** CHUNKSIZE: a power of two, at least 32, held in an `unsigned int`. */
  predicate ValidChunkSize(c: int) {
    32 <= c < U32 && IsPowerOfTwo(c)
  }

  /** The values CHUNKSIZE may take. */
  type ChunkSize = c: int | ValidChunkSize(c) witness 32

  /** A larger power of two is a multiple of a smaller one. */
  lemma {:induction false} PowerOfTwoMultiple(c: nat, m: nat)
    requires IsPowerOfTwo(c) && IsPowerOfTwo(m) && m <= c
    ensures c % m == 0
    decreases c
  {
    if c == m {
    } else if m == 1 {
    } else {
      PowerOfTwoMultiple(c / 2, m / 2);
      var t := (c / 2) / (m / 2);
      assert c / 2 == t * (m / 2);
      assert c == 2 * (t * (m / 2)) == t * (2 * (m / 2)) == t * m;
      DivModUnique(c, m, t, 0);
    }
  }

  /** A valid chunk size splits into whole 32-bit words and whole bytes. */
  lemma ChunkSizeWords(c: int)
    requires ValidChunkSize(c)
    ensures c % 32 == 0 && c / 32 >= 1 && c == 32 * (c / 32)
    ensures c % 8 == 0 && c / 8 == 4 * (c / 32)
  {
    ThirtyTwoIsValid();
    PowerOfTwoMultiple(c, 32);
  }

  /** 32, the smallest chunk size the library accepts. */
  lemma ThirtyTwoIsValid()
    ensures ValidChunkSize(32)
  {
    assert IsPowerOfTwo(1);
    assert IsPowerOfTwo(2);
    assert IsPowerOfTwo(4);
    assert IsPowerOfTwo(8);
    assert IsPowerOfTwo(16);
  }

  lemma MulAtLeast(d: int, n: int)
    requires d >= 1 && n >= 0
    ensures d * n >= n
  {
    assert d * n == (d - 1) * n + n;
    assert (d - 1) * n >= 0;
  }

  /** A multiple of 32 counts `c / 32` words and `c / 8` bytes. */
  lemma WordsAndBytes(c: int)
    requires c >= 0 && c % 32 == 0
    ensures c == 32 * (c / 32) && c % 8 == 0 && c / 8 == 4 * (c / 32) && 8 * (c / 8) == c
  {
    DivModUnique(c, 8, 4 * (c / 32), 0);
  }

  /** The decomposition of an index by a divisor is unique. */
  lemma DivModUnique(k: int, n: int, q: int, r: int)
    requires n > 0 && 0 <= r < n && k == q * n + r
    ensures k / n == q && k % n == r
  {
    var q', r' := k / n, k % n;
    assert k == q' * n + r';
    if q' > q {
      assert q' * n == q * n + (q' - q) * n;
      MulAtLeast(q' - q, n);
    } else if q' < q {
      assert q * n == q' * n + (q - q') * n;
      MulAtLeast(q - q', n);
    }
  }

  /** `m * n`, unfolded one chunk at a time: `Times(m + 1, n)` is
      `Times(m, n) + n`. Table sizes are stated with it so that the solver
      reasons about them by addition; `TimesIsProduct` connects it with `*`
      where a product is needed. */
  function Times(m: nat, n: nat): nat
  {
    if m == 0 then 0 else Times(m - 1, n) + n
  }

  lemma {:induction false} TimesIsProduct(m: nat, n: nat)
    ensures Times(m, n) == m * n
  {
    if m > 0 {
      TimesIsProduct(m - 1, n);
      assert m * n == (m - 1) * n + n;
    }
  }

  /** A chunk below `m` ends inside the first `m` chunks. */
  lemma {:induction false} TimesBelow(j: nat, m: nat, n: nat)
    requires j < m
    ensures Times(j, n) + n <= Times(m, n)
    decreases m
  {
    if j + 1 < m {
      TimesBelow(j, m - 1, n);
    }
  }

  /** Index `k` lies in the first `m` chunks of `n` slots exactly when its
      chunk number is below `m`. */
  lemma ChunkBound(k: nat, m: nat, n: nat)
    requires n > 0
    ensures k < m * n <==> k / n < m
  {
    var q, r := k / n, k % n;
    assert k == q * n + r;
    if q < m {
      MulAtLeast(m - q, n);
      assert m * n == q * n + (m - q) * n;
    } else if q > m {
      MulAtLeast(q - m, n);
      assert q * n == m * n + (q - m) * n;
    }
  }

  /** Index `i` of a table of `m` chunks of `n` slots is slot `i % n` of
      chunk `i / n`. */
  lemma Locate(i: nat, m: nat, n: nat)
    requires n > 0 && i < Times(m, n)
    ensures i / n < m && i % n < n && i == Times(i / n, n) + i % n
  {
    TimesIsProduct(m, n);
    ChunkBound(i, m, n);
    TimesIsProduct(i / n, n);
  }

  /** Slot `s` of chunk `j` is the flat index `Times(j, n) + s`, and that
      index splits back into `j` and `s`. */
  lemma SlotOf(j: nat, s: nat, n: nat)
    requires s < n
    ensures (Times(j, n) + s) / n == j && (Times(j, n) + s) % n == s
  {
    TimesIsProduct(j, n);
    DivModUnique(j * n + s, n, j, s);
  }

  /** `j != k`, as a term of its own: the pairwise-distinct-chunks invariant
      is stated over it so that the solver considers a pair of chunks only
      where a proof names that pair. */
  predicate Apart(j: int, k: int) {
    j != k
  }

  /** Concatenation of chunks in table order. */
  function Flatten<X>(bs: seq<seq<X>>): (r: seq<X>)
  {
    if bs == [] then [] else Flatten(bs[..|bs| - 1]) + bs[|bs| - 1]
  }

  /** When every chunk holds `n` elements the table holds `Times(|bs|, n)`. */
  lemma {:induction false} FlattenLength<X>(bs: seq<seq<X>>, n: nat)
    requires forall j :: 0 <= j < |bs| ==> |bs[j]| == n
    ensures |Flatten(bs)| == Times(|bs|, n)
  {
    if bs != [] {
      FlattenLength(bs[..|bs| - 1], n);
    }
  }

  /** Appending a chunk appends its elements. */
  lemma FlattenSnoc<X>(bs: seq<seq<X>>, x: seq<X>)
    ensures Flatten(bs + [x]) == Flatten(bs) + x
  {
    assert (bs + [x])[..|bs|] == bs;
  }

  /** Flattening distributes over concatenation of tables. */
  lemma {:induction false} FlattenConcat<X>(a: seq<seq<X>>, b: seq<seq<X>>)
    ensures Flatten(a + b) == Flatten(a) + Flatten(b)
    decreases |b|
  {
    if b == [] {
      assert a + b == a;
    } else {
      var b', x := b[..|b| - 1], b[|b| - 1];
      assert b == b' + [x];
      assert a + b == (a + b') + [x];
      FlattenConcat(a, b');
      FlattenSnoc(a + b', x);
      FlattenSnoc(b', x);
    }
  }

  /** The table is the chunks before `j`, chunk `j`, and the chunks after. */
  lemma FlattenSplit<X>(bs: seq<seq<X>>, j: nat)
    requires j < |bs|
    ensures Flatten(bs) == Flatten(bs[..j]) + bs[j] + Flatten(bs[j + 1..])
  {
    var a, x, r := bs[..j], bs[j], bs[j + 1..];
    assert bs[j..] == [x] + r;
    assert bs == a + bs[j..];
    FlattenConcat(a, [x] + r);
    FlattenConcat([x], r);
    FlattenSingle(x);
    Chain(Flatten(bs), Flatten([x] + r), Flatten(a), x, Flatten(r));
  }

  lemma Chain<X>(t: seq<X>, v: seq<X>, a: seq<X>, x: seq<X>, r: seq<X>)
    requires t == a + v && v == x + r
    ensures t == a + x + r
  {
  }


  /** Replacing chunk `j` by `y` replaces its elements by those of `y`. */
  lemma FlattenReplace<X>(bs: seq<seq<X>>, j: nat, y: seq<X>)
    requires j < |bs|
    ensures Flatten(bs[j := y]) == Flatten(bs[..j]) + y + Flatten(bs[j + 1..])
  {
    var bs' := bs[j := y];
    FlattenSplit(bs', j);
    assert bs'[..j] == bs[..j];
    assert bs'[j + 1..] == bs[j + 1..];
  }

  lemma FlattenSingle<X>(x: seq<X>)
    ensures Flatten([x]) == x
  {
    assert [x][..0] == [];
  }

  /** Slot `s` of chunk `j` is element `Times(j, n) + s` of the table. */
  lemma FlattenAt<X>(bs: seq<seq<X>>, n: nat, j: nat, s: nat)
    requires forall c :: 0 <= c < |bs| ==> |bs[c]| == n
    requires j < |bs| && s < n
    ensures Times(j, n) + s < |Flatten(bs)| && Flatten(bs)[Times(j, n) + s] == bs[j][s]
  {
    FlattenSplit(bs, j);
    FlattenLength(bs[..j], n);
    FlattenLength(bs, n);
    TimesBelow(j, |bs|, n);
  }

  /** Element `k` of the table is slot `k % n` of chunk `k / n`. */
  lemma FlattenIndex<X>(bs: seq<seq<X>>, n: nat, k: nat)
    requires n > 0 && forall c :: 0 <= c < |bs| ==> |bs[c]| == n
    requires k < Times(|bs|, n)
    ensures k / n < |bs| && k % n < n
    ensures k < |Flatten(bs)| && Flatten(bs)[k] == bs[k / n][k % n]
  {
    Locate(k, |bs|, n);
    FlattenAt(bs, n, k / n, k % n);
  }

  lemma UpdateMiddle<X>(a: seq<X>, x: seq<X>, r: seq<X>, s: nat, v: X)
    requires s < |x|
    ensures (a + x + r)[|a| + s := v] == a + x[s := v] + r
  {
  }

  /** Writing slot `s` of chunk `j` writes element `Times(j, n) + s` of the
      table. */
  lemma FlattenUpdate<X>(bs: seq<seq<X>>, n: nat, j: nat, s: nat, v: X)
    requires forall c :: 0 <= c < |bs| ==> |bs[c]| == n
    requires j < |bs| && s < n
    ensures Times(j, n) + s < |Flatten(bs)|
    ensures Flatten(bs[j := bs[j][s := v]]) == Flatten(bs)[Times(j, n) + s := v]
  {
    FlattenSplit(bs, j);
    FlattenReplace(bs, j, bs[j][s := v]);
    FlattenLength(bs[..j], n);
    FlattenLength(bs, n);
    TimesBelow(j, |bs|, n);
    UpdateMiddle(Flatten(bs[..j]), bs[j], Flatten(bs[j + 1..]), s, v);
  }

  /** The first `i` chunks flatten to the first `Times(i, n)` elements. */
  lemma FlattenPrefix<X>(bs: seq<seq<X>>, n: nat, i: nat)
    requires forall j :: 0 <= j < |bs| ==> |bs[j]| == n
    requires i <= |bs|
    ensures |Flatten(bs[..i])| == Times(i, n) <= |Flatten(bs)|
    ensures Flatten(bs[..i]) == Flatten(bs)[..Times(i, n)]
  {
    assert bs == bs[..i] + bs[i..];
    FlattenConcat(bs[..i], bs[i..]);
    FlattenLength(bs[..i], n);
  }

  /** The first `i` chunks followed by the first `m` elements of chunk `i`
      are the first `Times(i, n) + m` elements of the table. */
  lemma FlattenPrefixPartial<X>(bs: seq<seq<X>>, n: nat, i: nat, m: nat)
    requires forall j :: 0 <= j < |bs| ==> |bs[j]| == n
    requires i < |bs| && m <= n
    ensures Times(i, n) + m <= |Flatten(bs)|
    ensures Flatten(bs[..i]) + bs[i][..m] == Flatten(bs)[..Times(i, n) + m]
  {
    FlattenSplit(bs, i);
    FlattenLength(bs[..i], n);
    FlattenLength(bs, n);
    TimesBelow(i, |bs|, n);
    PrefixThrough(Flatten(bs[..i]), bs[i], Flatten(bs[i + 1..]), m);
  }

  lemma PrefixThrough<X>(a: seq<X>, x: seq<X>, r: seq<X>, m: nat)
    requires m <= |x|
    ensures (a + x + r)[..|a| + m] == a + x[..m]
  {
  }

  /** Overwriting the front of chunk `i` with `p` overwrites the table from
      index `Times(i, n)` on. */
  lemma FlattenSplice<X>(bs: seq<seq<X>>, n: nat, i: nat, at: nat, p: seq<X>)
    requires forall j :: 0 <= j < |bs| ==> |bs[j]| == n
    requires i < |bs| && |p| <= n && at == Times(i, n)
    ensures at + |p| <= |Flatten(bs)|
    ensures Flatten(bs[i := Overlay(bs[i], p)]) == Flatten(bs)[..at] + p + Flatten(bs)[at + |p|..]
  {
    FlattenSplit(bs, i);
    FlattenReplace(bs, i, Overlay(bs[i], p));
    FlattenLength(bs[..i], n);
    FlattenLength(bs, n);
    TimesBelow(i, |bs|, n);
    Splice(Flatten(bs[..i]), bs[i], Flatten(bs[i + 1..]), p);
  }

  /** A sequential reader that has laid `done` over `base` and now reads
      `p` into chunk `i`, which starts at `at`, has laid `done + p`: the
      reader is at the start of the chunk, or has nothing left. */
  lemma SpliceStep<X>(bs: seq<seq<X>>, c: nat, i: nat, at: nat, base: seq<X>, done: seq<X>, p: seq<X>)
    requires forall j :: 0 <= j < |bs| ==> |bs[j]| == c
    requires i < |bs| && at == Times(i, c) && |p| <= c
    requires |done| <= at && (|done| < at ==> p == []) && |base| == |Flatten(bs)| && at + |p| <= |base|
    requires Flatten(bs) == Overlay(base, done)
    ensures Flatten(bs[i := Overlay(bs[i], p)]) == Overlay(base, done + p)
  {
    FlattenSplice(bs, c, i, at, p);
    CursorStep(base, done, p, Flatten(bs), at);
  }

  lemma Splice<X>(a: seq<X>, x: seq<X>, r: seq<X>, p: seq<X>)
    requires |p| <= |x|
    ensures a + Overlay(x, p) + r == (a + x + r)[..|a|] + p + (a + x + r)[|a| + |p|..]
  {
    var t := a + x + r;
    assert t[..|a|] == a;
    assert t[|a| + |p|..] == x[|p|..] + r;
  }

  /** The first `j` chunks of `n` eighth-parts of `c` hold `c / 8` bytes
      each: `j` chunks of `c` bits. */
  lemma {:induction false} TimesBytes(j: nat, c: nat)
    requires c % 8 == 0
    ensures 8 * Times(j, c / 8) == Times(j, c)
  {
    if j > 0 {
      TimesBytes(j - 1, c);
    }
  }

  /** Whole chunks of a multiple of 32 end on a multiple of 32. */
  lemma {:induction false} TimesAligned(j: nat, c: nat)
    requires c % 32 == 0
    ensures Times(j, c) % 32 == 0
  {
    if j > 0 {
      TimesAligned(j - 1, c);
    }
  }

  /** `s` with `w` written over it from index `at` on. */
  function Spliced<X>(s: seq<X>, at: nat, w: seq<X>): (r: seq<X>)
    requires at + |w| <= |s|
    ensures |r| == |s|
  {
    s[..at] + w + s[at + |w|..]
  }

  /** Element `k` of a spliced sequence. */
  lemma SplicedAt<X>(s: seq<X>, at: nat, w: seq<X>, k: nat)
    requires at + |w| <= |s| && k < |s|
    ensures Spliced(s, at, w)[k] == if at <= k < at + |w| then w[k - at] else s[k]
  {
  }

  /** A window written inside the middle part of a concatenation. */
  lemma SplicedMiddle<X>(a: seq<X>, x: seq<X>, r: seq<X>, off: nat, w: seq<X>)
    requires off + |w| <= |x|
    ensures a + Spliced(x, off, w) + r == Spliced(a + x + r, |a| + off, w)
  {
    var t, u := a + Spliced(x, off, w) + r, Spliced(a + x + r, |a| + off, w);
    forall k | 0 <= k < |t| ensures t[k] == u[k] {
      SplicedAt(a + x + r, |a| + off, w, k);
      if |a| <= k < |a| + |x| {
        SplicedAt(x, off, w, k - |a|);
      }
    }
  }

  /** A window read inside the middle part of a concatenation. */
  lemma WindowMiddle<X>(a: seq<X>, x: seq<X>, r: seq<X>, off: nat, m: nat)
    requires off + m <= |x|
    ensures (a + x + r)[|a| + off..|a| + off + m] == x[off..off + m]
  {
  }

  /** The table around chunk `j`: the chunks before it, the chunk, the
      chunks after it, with chunk `j` starting at `Times(j, n)`. */
  lemma FlattenParts<X>(bs: seq<seq<X>>, n: nat, j: nat)
    requires forall c :: 0 <= c < |bs| ==> |bs[c]| == n
    requires j < |bs|
    ensures |Flatten(bs[..j])| == Times(j, n) && Times(j, n) + n <= |Flatten(bs)|
    ensures Flatten(bs) == Flatten(bs[..j]) + bs[j] + Flatten(bs[j + 1..])
  {
    FlattenSplit(bs, j);
    FlattenLength(bs[..j], n);
    FlattenLength(bs, n);
    TimesBelow(j, |bs|, n);
  }

  /** Reading a window of chunk `j` reads the same window of the table,
      `Times(j, n)` further on. */
  lemma FlattenWindowRead<X>(bs: seq<seq<X>>, n: nat, j: nat, at: nat, off: nat, m: nat)
    requires forall c :: 0 <= c < |bs| ==> |bs[c]| == n
    requires j < |bs| && off + m <= n && at == Times(j, n)
    ensures at + off + m <= |Flatten(bs)|
    ensures Flatten(bs)[at + off..at + off + m] == bs[j][off..off + m]
  {
    FlattenParts(bs, n, j);
    WindowMiddle(Flatten(bs[..j]), bs[j], Flatten(bs[j + 1..]), off, m);
  }

  /** Writing a window of chunk `j` writes the same window of the table,
      `Times(j, n)` further on. */
  lemma FlattenWindow<X>(bs: seq<seq<X>>, n: nat, j: nat, at: nat, off: nat, w: seq<X>)
    requires forall c :: 0 <= c < |bs| ==> |bs[c]| == n
    requires j < |bs| && off + |w| <= n && at == Times(j, n)
    ensures at + off + |w| <= |Flatten(bs)|
    ensures Flatten(bs[j := Spliced(bs[j], off, w)]) == Spliced(Flatten(bs), at + off, w)
  {
    FlattenParts(bs, n, j);
    FlattenReplace(bs, j, Spliced(bs[j], off, w));
    SplicedWithin(Flatten(bs[j := Spliced(bs[j], off, w)]), Flatten(bs[..j]), bs[j], Flatten(bs[j + 1..]), Flatten(bs), at, off, w);
  }

  lemma SplicedWithin<X>(u: seq<X>, a: seq<X>, x: seq<X>, r: seq<X>, t: seq<X>, at: nat, off: nat, w: seq<X>)
    requires off + |w| <= |x|
    requires u == a + Spliced(x, off, w) + r
    requires t == a + x + r && at == |a|
    ensures u == Spliced(t, at + off, w)
  {
    SplicedMiddle(a, x, r, off, w);
  }

  /** A window as long as the sequence replaces all of it. */
  lemma SplicedWhole<X>(s: seq<X>, w: seq<X>)
    requires |w| == |s|
    ensures Spliced(s, 0, w) == w
  {
    assert s[..0] + w + s[|w|..] == w;
  }

  /** Writing back a window with one element changed changes that element. */
  lemma SplicedPoint<X>(s: seq<X>, at: nat, w: seq<X>, y: nat, v: X)
    requires at + |w| <= |s| && w == s[at..at + |w|] && y < |w|
    ensures Spliced(s, at, w[y := v]) == s[at + y := v]
  {
    var t, u := Spliced(s, at, w[y := v]), s[at + y := v];
    forall k | 0 <= k < |s| ensures t[k] == u[k] {
      SplicedAt(s, at, w[y := v], k);
    }
  }

  /** The table after growing with `z` or shrinking to `n` elements. */
  function Resized<X>(s: seq<X>, n: nat, z: X): (r: seq<X>)
    ensures |r| == n
    ensures forall k :: 0 <= k < n && k < |s| ==> r[k] == s[k]
    ensures forall k :: |s| <= k < n ==> r[k] == z
  {
    if n <= |s| then s[..n] else s + seq(n - |s|, _ => z)
  }

  /** Growing in two steps is growing once. */
  lemma ResizedGrow<X>(s: seq<X>, m: nat, n: nat, z: X)
    requires |s| <= m
    ensures Resized(s, m, z) + seq(n, _ => z) == Resized(s, m + n, z)
  {
    assert seq(m - |s|, _ => z) + seq(n, _ => z) == seq(m + n - |s|, _ => z);
  }

  /** One step of a sequential reader: with `done` already laid over `base`,
      writing `next` at offset `off` lays `done + next`. The offset runs
      ahead of what was read only once the data is exhausted, and then
      nothing more is read. */
  lemma CursorStep<X>(base: seq<X>, done: seq<X>, next: seq<X>, cur: seq<X>, off: nat)
    requires |done| <= off && off + |next| <= |base|
    requires |done| < off ==> next == []
    requires cur == Overlay(base, done)
    ensures cur[..off] + next + cur[off + |next|..] == Overlay(base, done + next)
  {
    if next == [] {
      assert cur[..off] + next + cur[off..] == cur;
      assert done + next == done;
    }
  }

  /** `s` with the values at `a` and `b` exchanged. */
  function Swapped<X>(s: seq<X>, a: nat, b: nat): (r: seq<X>)
    requires a < |s| && b < |s|
    ensures |r| == |s| && r[a] == s[b] && r[b] == s[a]
    ensures forall k :: 0 <= k < |s| && k != a && k != b ==> r[k] == s[k]
    ensures multiset(r) == multiset(s)
  {
    s[a := s[b]][b := s[a]]
  }

  /** Exchanging the same two positions twice restores the table. */
  lemma SwappedTwice<X>(s: seq<X>, a: nat, b: nat)
    requires a < |s| && b < |s|
    ensures Swapped(Swapped(s, a, b), a, b) == s
  {
    var t := Swapped(Swapped(s, a, b), a, b);
    assert forall k :: 0 <= k < |s| ==> t[k] == s[k];
  }

  /** `base` with its first `|p|` elements replaced by `p`. */
  function Overlay<X>(base: seq<X>, p: seq<X>): (r: seq<X>)
    requires |p| <= |base|
    ensures |r| == |base|
    ensures forall k :: 0 <= k < |base| ==> r[k] == if k < |p| then p[k] else base[k]
  {
    p + base[|p|..]
  }

  /** Laying a prefix of `saved` over `base` makes the first `k` elements,
      `k` within the prefix, those of `saved`. */
  lemma OverlayFront<X>(base: seq<X>, p: seq<X>, saved: seq<X>, k: nat)
    requires |p| <= |base| && |p| <= |saved| && p == saved[..|p|] && k <= |p|
    ensures Overlay(base, p)[..k] == saved[..k]
  {
  }

  function Min(a: int, b: int): int {
    if a <= b then a else b
  }
}
