/**
 The bytes of the blob store's extents (kernel/blobstore.c), and which bytes its copy loops touch:
 positions are 64-bit numbers, page indices 32-bit ones, and both wrap.
 */
module BlobBytes {
  import opened CacheIndex
  import opened PageCache
  import opened BlobLayout

  // ---- bytes of an extent ----

  function ByteAt(flat: seq<Page>, start: nat, pos: nat): Byte
    requires start + pos / PAGE_SIZE < |flat|
  {
    flat[start + pos / PAGE_SIZE][pos % PAGE_SIZE]
  }

  ghost function Bytes(flat: seq<Page>, start: nat, npages: nat): (b: seq<Byte>)
    requires start + npages <= |flat|
    ensures |b| == npages * PAGE_SIZE
    ensures forall pos :: 0 <= pos < |b| ==> b[pos] == ByteAt(flat, start, pos)
  {
    seq(npages * PAGE_SIZE, pos requires 0 <= pos < npages * PAGE_SIZE => ByteAt(flat, start, pos))
  }

  /** An extent depends on its own pages only. */
  lemma BytesSame(f: seq<Page>, g: seq<Page>, start: nat, npages: nat)
    requires |f| == |g| && start + npages <= |f|
    requires forall p :: start <= p < start + npages ==> f[p] == g[p]
    ensures Bytes(f, start, npages) == Bytes(g, start, npages)
  {
  }

  /** Patching one page of an extent writes that stretch of its bytes and nothing else. */
  lemma PatchBytes(f: seq<Page>, start: nat, npages: nat, pos: nat, piece: seq<Byte>, data: Page)
    requires start + npages <= |f| && pos / PAGE_SIZE < npages
    requires pos % PAGE_SIZE + |piece| <= PAGE_SIZE
    requires data == f[start + pos / PAGE_SIZE] || |piece| == PAGE_SIZE
    ensures pos + |piece| <= npages * PAGE_SIZE
    ensures var g := f[start + pos / PAGE_SIZE := Patched(data, pos % PAGE_SIZE, piece)];
            Bytes(g, start, npages) == Spliced(Bytes(f, start, npages), pos, piece)
  {
    var page := pos / PAGE_SIZE;
    assert pos == page * PAGE_SIZE + pos % PAGE_SIZE;
    assert page * PAGE_SIZE + PAGE_SIZE <= npages * PAGE_SIZE;
    var g := f[start + page := Patched(data, pos % PAGE_SIZE, piece)];
    var a, b := Bytes(g, start, npages), Spliced(Bytes(f, start, npages), pos, piece);
    forall q | 0 <= q < |a| ensures a[q] == b[q] {
      assert a[q] == ByteAt(g, start, q);
      assert Bytes(f, start, npages)[q] == ByteAt(f, start, q);
    }
  }

  ghost function Spliced(b: seq<Byte>, off: nat, piece: seq<Byte>): (r: seq<Byte>)
    requires off + |piece| <= |b|
    ensures |r| == |b|
    ensures forall k :: 0 <= k < |b| ==> r[k] == if off <= k < off + |piece| then piece[k - off] else b[k]
  {
    b[..off] + piece + b[off + |piece|..]
  }

  lemma SpliceNothing(b: seq<Byte>, off: nat, buf: seq<Byte>)
    requires off <= |b|
    ensures Spliced(b, off, buf[..0]) == b
  {
  }

  lemma SpliceGrows(b: seq<Byte>, off: nat, buf: seq<Byte>, done: nat, chunk: nat)
    requires done + chunk <= |buf| && off + |buf| <= |b|
    ensures Spliced(Spliced(b, off, buf[..done]), off + done, buf[done..done + chunk]) ==
            Spliced(b, off, buf[..done + chunk])
  {
  }

  lemma BytesPrefix(flat: seq<Page>, start: nat, few: nat, many: nat)
    requires few <= many && start + many <= |flat|
    ensures Bytes(flat, start, few) <= Bytes(flat, start, many)
  {
    var a, b := Bytes(flat, start, few), Bytes(flat, start, many);
    forall k | 0 <= k < |a| ensures a[k] == b[k] {
      assert a[k] == ByteAt(flat, start, k);
    }
  }

  // ---- the copy loops ----

  /** The page a position of an object falls on, in the source's arithmetic. */
  function PageOf(start: nat, pos: nat): (p: nat)
    ensures p < U32
  {
    (start + (pos / PAGE_SIZE) % U32) % U32
  }

  /** The array after the first `n` bytes of `buf` were written at `off`. */
  ghost function Poked(flat: seq<Page>, start: nat, off: nat, buf: seq<Byte>, n: nat): (r: seq<Page>)
    requires |flat| == U32 && n <= |buf|
    ensures |r| == U32
  {
    if n == 0 then flat
    else
      var f, pos := Poked(flat, start, off, buf, n - 1), (off + n - 1) % U64;
      f[PageOf(start, pos) := Patched(f[PageOf(start, pos)], pos % PAGE_SIZE, [buf[n - 1]])]
  }

  /** The `n` bytes read at `off`. */
  ghost function Peeked(flat: seq<Page>, start: nat, off: nat, n: nat): (r: seq<Byte>)
    requires |flat| == U32
    ensures |r| == n
  {
    if n == 0 then []
    else
      var pos := (off + n - 1) % U64;
      Peeked(flat, start, off, n - 1) + [flat[PageOf(start, pos)][pos % PAGE_SIZE]]
  }

  /** Positions on one page follow each other without wrapping. */
  lemma SamePage(at: nat, k: nat, start: nat)
    requires at % U64 % PAGE_SIZE + k < PAGE_SIZE
    ensures (at + k) % U64 == at % U64 + k
    ensures PageOf(start, at % U64 + k) == PageOf(start, at % U64)
    ensures (at % U64 + k) % PAGE_SIZE == at % U64 % PAGE_SIZE + k
  {
    var pos := at % U64;
    var q, o := pos / PAGE_SIZE, pos % PAGE_SIZE;
    assert pos == q * PAGE_SIZE + o;
    Quotient(pos + k, q, o + k, PAGE_SIZE);
    assert q < U64 / PAGE_SIZE;
    assert q * PAGE_SIZE + PAGE_SIZE <= U64;
    Quotient(at + k, at / U64, pos + k, U64);
  }

  lemma Quotient(n: nat, q: nat, r: nat, d: nat)
    requires d > 0 && n == q * d + r && r < d
    ensures n / d == q && n % d == r
  {
    var x := n / d - q;
    assert x * d == r - n % d;
    Multiple(x, d);
  }

  lemma Multiple(x: int, d: int)
    requires d > 0
    ensures x > 0 ==> x * d >= d
    ensures x < 0 ==> x * d <= -d
  {
    if x > 0 {
      assert (x - 1) * d >= 0;
    } else if x < 0 {
      assert (-x - 1) * d >= 0;
    }
  }

  /** A chunk on one page is patched in at once. */
  lemma {:induction false} PokeChunk(flat: seq<Page>, start: nat, off: nat, buf: seq<Byte>, done: nat, chunk: nat)
    requires |flat| == U32 && done + chunk <= |buf| && (off + done) % U64 % PAGE_SIZE + chunk <= PAGE_SIZE
    ensures var f, pos := Poked(flat, start, off, buf, done), (off + done) % U64;
            Poked(flat, start, off, buf, done + chunk) ==
            f[PageOf(start, pos) := Patched(f[PageOf(start, pos)], pos % PAGE_SIZE, buf[done..done + chunk])]
    decreases chunk
  {
    hide PageOf, Patched;
    var f, pos := Poked(flat, start, off, buf, done), (off + done) % U64;
    var page, o := PageOf(start, pos), pos % PAGE_SIZE;
    if chunk == 0 {
      assert Patched(f[page], o, buf[done..done]) == f[page];
    } else {
      PokeChunk(flat, start, off, buf, done, chunk - 1);
      SamePage(off + done, chunk - 1, start);
      PatchMore(f[page], o, buf[done..done + chunk - 1], buf[done + chunk - 1]);
      assert buf[done..done + chunk] == buf[done..done + chunk - 1] + [buf[done + chunk - 1]];
      assert off + (done + chunk) - 1 == off + done + (chunk - 1);
    }
  }

  lemma PatchMore(data: Page, off: nat, piece: seq<Byte>, b: Byte)
    requires off + |piece| < PAGE_SIZE
    ensures Patched(Patched(data, off, piece), off + |piece|, [b]) == Patched(data, off, piece + [b])
  {
  }

  lemma {:induction false} PeekChunk(flat: seq<Page>, start: nat, off: nat, done: nat, chunk: nat)
    requires |flat| == U32 && (off + done) % U64 % PAGE_SIZE + chunk <= PAGE_SIZE
    ensures var pos := (off + done) % U64;
            var o := pos % PAGE_SIZE;
            Peeked(flat, start, off, done + chunk) ==
            Peeked(flat, start, off, done) + flat[PageOf(start, pos)][o..o + chunk]
    decreases chunk
  {
    hide PageOf;
    var pos := (off + done) % U64;
    var page, o := flat[PageOf(start, pos)], pos % PAGE_SIZE;
    if chunk > 0 {
      PeekChunk(flat, start, off, done, chunk - 1);
      SamePage(off + done, chunk - 1, start);
      assert page[o..o + chunk] == page[o..o + chunk - 1] + [page[o + chunk - 1]];
      assert off + (done + chunk) - 1 == off + done + (chunk - 1);
    }
  }

  /** Inside an extent nothing wraps. */
  lemma PageInside(start: nat, npages: nat, pos: nat)
    requires start + npages <= U32 && pos < npages * PAGE_SIZE
    ensures pos % U64 == pos && pos / PAGE_SIZE < npages && PageOf(start, pos) == start + pos / PAGE_SIZE
  {
    var q := pos / PAGE_SIZE;
    assert pos == q * PAGE_SIZE + pos % PAGE_SIZE;
    assert npages * PAGE_SIZE <= U32 * PAGE_SIZE < U64;
  }

  /** A write inside an extent is a splice of its bytes and leaves every other page alone. */
  lemma {:induction false} PokedInside(flat: seq<Page>, start: nat, npages: nat, off: nat, buf: seq<Byte>, n: nat)
    requires |flat| == U32 && start + npages <= U32 && off + |buf| <= npages * PAGE_SIZE && n <= |buf|
    ensures var g := Poked(flat, start, off, buf, n);
            && Bytes(g, start, npages) == Spliced(Bytes(flat, start, npages), off, buf[..n])
            && forall p :: 0 <= p < U32 && !(start <= p < start + npages) ==> g[p] == flat[p]
    decreases n
  {
    hide Bytes, Spliced, PageOf, Patched;
    var b := Bytes(flat, start, npages);
    if n == 0 {
      SpliceNothing(b, off, buf);
    } else {
      PokedInside(flat, start, npages, off, buf, n - 1);
      var f, pos := Poked(flat, start, off, buf, n - 1), off + n - 1;
      PageInside(start, npages, pos);
      PatchBytes(f, start, npages, pos, [buf[n - 1]], f[start + pos / PAGE_SIZE]);
      SpliceGrows(b, off, buf, n - 1, 1);
      assert buf[n - 1..n] == [buf[n - 1]];
    }
  }

  lemma {:induction false} PeekedInside(flat: seq<Page>, start: nat, npages: nat, off: nat, n: nat)
    requires |flat| == U32 && start + npages <= U32 && off + n <= npages * PAGE_SIZE
    ensures Peeked(flat, start, off, n) == Bytes(flat, start, npages)[off..off + n]
    decreases n
  {
    hide PageOf, Bytes;
    var b := Bytes(flat, start, npages);
    if n > 0 {
      PeekedInside(flat, start, npages, off, n - 1);
      var pos := off + n - 1;
      PageInside(start, npages, pos);
      assert b[pos] == ByteAt(flat, start, pos);
      assert b[off..off + n] == b[off..off + n - 1] + [b[pos]];
    }
  }

  /** A two-byte write at offset 2^64 - 1 puts its first byte at the end of the page before the
      object and its second at the object's start. */
  lemma PokeBeforeStart(flat: seq<Page>, start: nat, x: Byte, y: Byte)
    requires |flat| == U32 && 0 < start < U32
    ensures var g := Poked(flat, start, U64 - 1, [x, y], 2);
            && g[start - 1] == Patched(flat[start - 1], PAGE_SIZE - 1, [x])
            && g[start] == Patched(flat[start], 0, [y])
  {
    hide Patched, PageOf;
    LastPosition(start);
    var buf := [x, y];
    var one := Poked(flat, start, U64 - 1, buf, 1);
    assert Poked(flat, start, U64 - 1, buf, 0) == flat;
    assert one == flat[start - 1 := Patched(flat[start - 1], PAGE_SIZE - 1, [buf[0]])];
  }

  lemma LastPosition(start: nat)
    requires 0 < start < U32
    ensures (U64 - 1 + 1 - 1) % U64 == U64 - 1 && (U64 - 1) % PAGE_SIZE == PAGE_SIZE - 1
    ensures (U64 - 1 + 2 - 1) % U64 == 0
    ensures PageOf(start, U64 - 1) == start - 1 && PageOf(start, 0) == start
  {
    Quotient(start + (U32 - 1), 1, start - 1, U32);
  }
}
