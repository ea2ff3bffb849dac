/**
  The on-disk page layout of format/page.go and format/alloc.go: little-endian
  fields, the 32-byte common header, the 4-byte tail checksum, and freelist trunk
  pages.  The checksum function itself is a parameter: nothing here depends on it.
 */
module PageFormat {
  import opened Prelude

  type Page = seq<Byte>

  const PAGE_HEADER_SIZE: nat := 32
  const PAGE_CHECKSUM_SIZE: nat := 4
  const PAGE_FREELIST_TRUNK: Byte := 1

  // ---- little-endian integers ----

  function Pow256(n: nat): nat {
    if n == 0 then 1 else 256 * Pow256(n - 1)
  }

  /** The n low-order bytes of v, least significant first. */
  function LE(v: nat, n: nat): (b: seq<Byte>)
    ensures |b| == n
  {
    if n == 0 then [] else [v % 256] + LE(v / 256, n - 1)
  }

  function FromLE(b: seq<Byte>): nat {
    if b == [] then 0 else b[0] + 256 * FromLE(b[1..])
  }

  lemma {:induction false} LERoundTrip(v: nat, n: nat)
    requires v < Pow256(n)
    ensures FromLE(LE(v, n)) == v
  {
    if n > 0 {
      LERoundTrip(v / 256, n - 1);
      assert LE(v, n)[1..] == LE(v / 256, n - 1);
    }
  }

  /** A field occupies its slice of whatever page contains it. */
  function Field(page: Page, off: nat, n: nat): nat
    requires off + n <= |page|
  {
    FromLE(page[off..off + n])
  }

  /** Writes a little-endian field into the buffer. */
  method PutLE(page: array<Byte>, off: nat, v: nat, n: nat)
    requires off + n <= page.Length
    modifies page
    ensures page[..] == old(page[..off]) + LE(v, n) + old(page[off + n..])
  {
    var rest := v;
    var i := 0;
    while i < n
      invariant 0 <= i <= n
      invariant page[..off] == old(page[..off])
      invariant page[off + n..] == old(page[off + n..])
      invariant page[off..off + i] + LE(rest, n - i) == LE(v, n)
    {
      page[off + i] := rest % 256;
      rest := rest / 256;
      i := i + 1;
    }
    assert page[..] == page[..off] + page[off..off + n] + page[off + n..];
  }

  // ---- the common page header ----

  datatype PageHeader = PageHeader(
    kind: Byte, flags: Byte, freeOffset: nat, cellCount: nat, fragBytes: nat,
    pageLsn: nat, sectionId: nat, nextPage: nat, prevPage: nat)

  /** The field widths of the header. */
  predicate HeaderFits(h: PageHeader) {
    && h.freeOffset < U16 && h.cellCount < U16 && h.fragBytes < U16 && h.pageLsn < U64
    && h.sectionId < U32 && h.nextPage < U32 && h.prevPage < U32
  }

  function HeaderImage(h: PageHeader): (b: Page)
    ensures |b| == PAGE_HEADER_SIZE
  {
    [h.kind, h.flags] + LE(h.freeOffset, 2) + LE(h.cellCount, 2) + LE(h.fragBytes, 2)
    + LE(h.pageLsn, 8) + LE(h.sectionId, 4) + LE(h.nextPage, 4) + LE(h.prevPage, 4) + [0, 0, 0, 0]
  }

  datatype FormatError = ShortBuffer | Corrupt

  function DecodePageHeader(page: Page): Result<PageHeader, FormatError> {
    if |page| < PAGE_HEADER_SIZE then Err(ShortBuffer)
    else Ok(PageHeader(page[0], page[1], Field(page, 2, 2), Field(page, 4, 2), Field(page, 6, 2),
                       Field(page, 8, 8), Field(page, 16, 4), Field(page, 20, 4), Field(page, 24, 4)))
  }

  lemma Pow256Values()
    ensures Pow256(2) == U16 && Pow256(4) == U32 && Pow256(8) == U64
  {
    assert Pow256(1) == 256;
    assert Pow256(3) == 256 * U16;
    assert Pow256(5) == 256 * U32 && Pow256(6) == 256 * Pow256(5) && Pow256(7) == 256 * Pow256(6);
  }

  /** Decoding inverts encoding, whatever follows the header on the page. */
  lemma HeaderRoundTrip(h: PageHeader, rest: Page)
    requires HeaderFits(h)
    ensures DecodePageHeader(HeaderImage(h) + rest) == Ok(h)
  {
    var p := HeaderImage(h) + rest;
    Pow256Values();
    LERoundTrip(h.freeOffset, 2);
    LERoundTrip(h.cellCount, 2);
    LERoundTrip(h.fragBytes, 2);
    LERoundTrip(h.pageLsn, 8);
    LERoundTrip(h.sectionId, 4);
    LERoundTrip(h.nextPage, 4);
    LERoundTrip(h.prevPage, 4);
    assert p[2..4] == LE(h.freeOffset, 2);
    assert p[4..6] == LE(h.cellCount, 2);
    assert p[6..8] == LE(h.fragBytes, 2);
    assert p[8..16] == LE(h.pageLsn, 8);
    assert p[16..20] == LE(h.sectionId, 4);
    assert p[20..24] == LE(h.nextPage, 4);
    assert p[24..28] == LE(h.prevPage, 4);
  }

  /** Where the encoder puts each field. */
  lemma HeaderLayout(h: PageHeader, rest: Page)
    requires HeaderFits(h)
    ensures var p := HeaderImage(h) + rest;
            && p[0] == h.kind && p[1] == h.flags && Field(p, 2, 2) == h.freeOffset && Field(p, 4, 2) == h.cellCount
            && Field(p, 6, 2) == h.fragBytes && Field(p, 8, 8) == h.pageLsn && Field(p, 16, 4) == h.sectionId
            && Field(p, 20, 4) == h.nextPage && Field(p, 24, 4) == h.prevPage
  {
    HeaderRoundTrip(h, rest);
  }

  /** Encodes the header in place over the first 32 bytes of the page. */
  method EncodeHeader(page: array<Byte>, h: PageHeader)
    requires page.Length >= PAGE_HEADER_SIZE
    modifies page
    ensures page[..] == HeaderImage(h) + old(page[PAGE_HEADER_SIZE..])
  {
    page[0] := h.kind;
    page[1] := h.flags;
    Append(page, 2, [h.kind, h.flags], h.freeOffset, 2);
    ghost var p4 := [h.kind, h.flags] + LE(h.freeOffset, 2);
    Append(page, 4, p4, h.cellCount, 2);
    ghost var p6 := p4 + LE(h.cellCount, 2);
    Append(page, 6, p6, h.fragBytes, 2);
    ghost var p8 := p6 + LE(h.fragBytes, 2);
    Append(page, 8, p8, h.pageLsn, 8);
    ghost var p16 := p8 + LE(h.pageLsn, 8);
    Append(page, 16, p16, h.sectionId, 4);
    ghost var p20 := p16 + LE(h.sectionId, 4);
    Append(page, 20, p20, h.nextPage, 4);
    ghost var p24 := p20 + LE(h.nextPage, 4);
    Append(page, 24, p24, h.prevPage, 4);
    ghost var p28 := p24 + LE(h.prevPage, 4);
    Append(page, 28, p28, 0, 4);
    assert LE(0, 4) == [0, 0, 0, 0];
    assert page[..] == page[..PAGE_HEADER_SIZE] + page[PAGE_HEADER_SIZE..];
  }

  /** Puts the next header field behind those already written. */
  method Append(page: array<Byte>, off: nat, ghost done: seq<Byte>, v: nat, n: nat)
    requires off == |done| && |done| + n <= PAGE_HEADER_SIZE <= page.Length && page[..|done|] == done
    modifies page
    ensures page[..|done| + n] == done + LE(v, n)
    ensures page[PAGE_HEADER_SIZE..] == old(page[PAGE_HEADER_SIZE..])
  {
    PutLE(page, off, v, n);
  }

  // ---- the tail checksum ----

  datatype ChecksumAlgo = ChecksumNone | Crc(sum: seq<Byte> -> nat) {
    /** The 32-bit value stored in the page tail. */
    function Of(body: seq<Byte>): nat {
      match this
      case ChecksumNone => 0
      case Crc(f) => f(body) % U32
    }
  }

  /** The page with its tail checksum stamped. */
  function Seal(page: Page, algo: ChecksumAlgo): (r: Page)
    requires |page| >= PAGE_CHECKSUM_SIZE
    ensures |r| == |page| && r[..|page| - 4] == page[..|page| - 4]
  {
    page[..|page| - 4] + LE(algo.Of(page[..|page| - 4]), 4)
  }

  function VerifyPageChecksum(page: Page, algo: ChecksumAlgo): Result<(), FormatError>
    requires |page| >= PAGE_CHECKSUM_SIZE
  {
    if algo.ChecksumNone? then Ok(())
    else if algo.Of(page[..|page| - 4]) != Field(page, |page| - 4, 4) then Err(Corrupt)
    else Ok(())
  }

  /** A sealed page verifies; and with checksums on, the page verifies only if its tail
      is the one sealing would write. */
  lemma SealVerifies(page: Page, algo: ChecksumAlgo)
    requires |page| >= PAGE_CHECKSUM_SIZE
    ensures VerifyPageChecksum(Seal(page, algo), algo) == Ok(())
    ensures algo.Crc? && VerifyPageChecksum(page, algo) == Ok(()) ==> Seal(page, algo) == page
  {
    Pow256Values();
    var body := page[..|page| - 4];
    LERoundTrip(algo.Of(body), 4);
    var r := Seal(page, algo);
    assert r[|r| - 4..|r| - 4 + 4] == LE(algo.Of(body), 4);
    if algo.Crc? && VerifyPageChecksum(page, algo) == Ok(()) {
      LEFromLE(page[|page| - 4..]);
      assert page[|page| - 4..|page| - 4 + 4] == page[|page| - 4..];
    }
  }

  lemma SplitLow(x: Byte, y: nat)
    ensures (x + 256 * y) % 256 == x && (x + 256 * y) / 256 == y
  {
  }

  lemma {:induction false} LEFromLE(b: seq<Byte>)
    ensures LE(FromLE(b), |b|) == b
  {
    if b != [] {
      LEFromLE(b[1..]);
      SplitLow(b[0], FromLE(b[1..]));
    }
  }

  // ---- freelist trunk pages ----

  /** The number of leaf page numbers that fit on one trunk page. */
  function TrunkCapacity(pageSize: int, reserved: Byte): nat {
    var body := pageSize - reserved - PAGE_CHECKSUM_SIZE - PAGE_HEADER_SIZE;
    if body < 0 then 0 else body / 4
  }

  predicate ValidPageSize(ps: int) {
    ps in {4096, 8192, 16384, 32768, 65536}
  }

  datatype TrunkPage = TrunkPage(next: nat, leafs: seq<nat>)

  predicate TrunkFits(tp: TrunkPage) {
    tp.next < U32 && |tp.leafs| < U16 && forall i :: 0 <= i < |tp.leafs| ==> tp.leafs[i] < U32
  }

  function TrunkHeader(tp: TrunkPage): PageHeader {
    PageHeader(PAGE_FREELIST_TRUNK, 0, 0, |tp.leafs|, 0, 0, 0, tp.next, 0)
  }

  function LeafBytes(leafs: seq<nat>): (b: seq<Byte>)
    ensures |b| == 4 * |leafs|
  {
    if leafs == [] then [] else LE(leafs[0], 4) + LeafBytes(leafs[1..])
  }

  function Zeros(n: nat): (z: seq<Byte>)
    ensures |z| == n && forall i :: 0 <= i < n ==> z[i] == 0
  {
    seq(n, i => 0)
  }

  function TrunkImage(size: nat, tp: TrunkPage): (page: Page)
    requires PAGE_HEADER_SIZE + 4 * |tp.leafs| <= size
    ensures |page| == size
  {
    HeaderImage(TrunkHeader(tp)) + LeafBytes(tp.leafs) + Zeros(size - PAGE_HEADER_SIZE - 4 * |tp.leafs|)
  }

  function ReadLeafs(page: Page, off: nat, n: nat): (leafs: seq<nat>)
    requires off + 4 * n <= |page|
    ensures |leafs| == n
    decreases n
  {
    if n == 0 then [] else [Field(page, off, 4)] + ReadLeafs(page, off + 4, n - 1)
  }

  /** Whether the page holds as many leaves as its header declares. */
  predicate TrunkReadable(page: Page) {
    |page| >= PAGE_HEADER_SIZE && PAGE_HEADER_SIZE + 4 * Field(page, 4, 2) <= |page|
  }

  function TrunkOf(page: Page): TrunkPage
    requires TrunkReadable(page)
  {
    TrunkPage(Field(page, 20, 4), ReadLeafs(page, PAGE_HEADER_SIZE, Field(page, 4, 2)))
  }

  lemma {:induction false} ReadLeafBytes(leafs: seq<nat>, page: Page, off: nat)
    requires off + 4 * |leafs| <= |page| && page[off..off + 4 * |leafs|] == LeafBytes(leafs)
    requires forall i :: 0 <= i < |leafs| ==> leafs[i] < U32
    ensures ReadLeafs(page, off, |leafs|) == leafs
    decreases |leafs|
  {
    if leafs != [] {
      Pow256Values();
      var b := page[off..off + 4 * |leafs|];
      assert page[off..off + 4] == b[..4] == LE(leafs[0], 4);
      assert page[off + 4..off + 4 + 4 * |leafs[1..]|] == b[4..] == LeafBytes(leafs[1..]);
      LERoundTrip(leafs[0], 4);
      ReadLeafBytes(leafs[1..], page, off + 4);
    }
  }

  /** A trunk page read back after encoding, whatever the bytes behind the leaves, which
      include the checksum. */
  lemma TrunkRoundTrip(tp: TrunkPage, tail: Page)
    requires TrunkFits(tp)
    ensures var page := HeaderImage(TrunkHeader(tp)) + LeafBytes(tp.leafs) + tail;
            TrunkReadable(page) && TrunkOf(page) == tp
  {
    var h := TrunkHeader(tp);
    var page := HeaderImage(h) + LeafBytes(tp.leafs) + tail;
    assert page == HeaderImage(h) + (LeafBytes(tp.leafs) + tail);
    HeaderRoundTrip(h, LeafBytes(tp.leafs) + tail);
    assert page[32..32 + 4 * |tp.leafs|] == LeafBytes(tp.leafs);
    ReadLeafBytes(tp.leafs, page, 32);
  }

  /** The sealed trunk page decodes to the trunk it was made from, provided its leaves
      end before the checksum. */
  lemma SealedTrunk(size: nat, tp: TrunkPage, algo: ChecksumAlgo)
    requires TrunkFits(tp) && PAGE_HEADER_SIZE + 4 * |tp.leafs| + PAGE_CHECKSUM_SIZE <= size
    ensures TrunkReadable(Seal(TrunkImage(size, tp), algo))
    ensures TrunkOf(Seal(TrunkImage(size, tp), algo)) == tp
  {
    var image := TrunkImage(size, tp);
    var page := Seal(image, algo);
    var n := PAGE_HEADER_SIZE + 4 * |tp.leafs|;
    var front := HeaderImage(TrunkHeader(tp)) + LeafBytes(tp.leafs);
    assert page[..n] == image[..n] == front;
    assert page == front + page[n..];
    TrunkRoundTrip(tp, page[n..]);
  }

  method ZeroFill(page: array<Byte>)
    modifies page
    ensures page[..] == Zeros(page.Length)
  {
    var i := 0;
    while i < page.Length
      invariant 0 <= i <= page.Length
      invariant forall j :: 0 <= j < i ==> page[j] == 0
    {
      page[i] := 0;
      i := i + 1;
    }
  }

  /** Writes the leaf numbers one behind the other. */
  method PutLeafs(page: array<Byte>, start: nat, leafs: seq<nat>)
    requires start + 4 * |leafs| <= page.Length
    modifies page
    ensures page[..start] == old(page[..start])
    ensures page[start..start + 4 * |leafs|] == LeafBytes(leafs)
    ensures page[start + 4 * |leafs|..] == old(page[start + 4 * |leafs|..])
  {
    var off, k := start, 0;
    while k < |leafs|
      invariant 0 <= k <= |leafs| && off == start + 4 * k
      invariant page[..start] == old(page[..start])
      invariant page[start..off] == LeafBytes(leafs[..k])
      invariant page[off..] == old(page[off..])
    {
      ghost var before := page[..];
      PutLE(page, off, leafs[k], 4);
      LeafBytesSnoc(leafs[..k], leafs[k]);
      assert leafs[..k + 1] == leafs[..k] + [leafs[k]];
      assert page[..off] == before[..off] && page[off..off + 4] == LE(leafs[k], 4);
      assert page[start..off] == before[start..off];
      assert page[start..off + 4] == page[start..off] + page[off..off + 4];
      k, off := k + 1, off + 4;
    }
    assert leafs[..k] == leafs;
  }

  /** Lays a trunk out in a page buffer. */
  method EncodeTrunk(page: array<Byte>, tp: TrunkPage)
    requires PAGE_HEADER_SIZE + 4 * |tp.leafs| <= page.Length
    modifies page
    ensures page[..] == TrunkImage(page.Length, tp)
  {
    ghost var head := HeaderImage(TrunkHeader(tp));
    ghost var n := PAGE_HEADER_SIZE + 4 * |tp.leafs|;
    ZeroFill(page);
    EncodeHeader(page, TrunkHeader(tp));
    assert page[..PAGE_HEADER_SIZE] == head && page[n..] == Zeros(page.Length - n);
    PutLeafs(page, PAGE_HEADER_SIZE, tp.leafs);
    ThreeParts(page[..], PAGE_HEADER_SIZE, n);
  }

  lemma ThreeParts(s: seq<Byte>, i: nat, j: nat)
    requires i <= j <= |s|
    ensures s == s[..i] + s[i..j] + s[j..]
  {
  }

  lemma {:induction false} LeafBytesSnoc(leafs: seq<nat>, x: nat)
    ensures LeafBytes(leafs + [x]) == LeafBytes(leafs) + LE(x, 4)
  {
    if leafs == [] {
      assert leafs + [x] == [x];
      assert LeafBytes([x]) == LE(x, 4) + LeafBytes([x][1..]);
      assert [x][1..] == [];
      assert LeafBytes(leafs) == [];
    } else {
      var y := leafs + [x];
      assert y[0] == leafs[0] && y[1..] == leafs[1..] + [x];
      LeafBytesSnoc(leafs[1..], x);
      assert LeafBytes(y) == LE(leafs[0], 4) + LeafBytes(y[1..]);
    }
  }

  /** Stamps the tail checksum in place. */
  method WritePageChecksum(page: array<Byte>, algo: ChecksumAlgo)
    requires page.Length >= PAGE_CHECKSUM_SIZE
    modifies page
    ensures page[..] == Seal(old(page[..]), algo)
  {
    var n := page.Length;
    assert page[..][..n - 4] == page[..n - 4];
    PutLE(page, n - 4, algo.Of(page[..n - 4]), 4);
  }

  method DecodeTrunk(page: Page) returns (tp: TrunkPage)
    requires TrunkReadable(page)
    ensures tp == TrunkOf(page)
  {
    var n := Field(page, 4, 2);
    var leafs := [];
    var off := PAGE_HEADER_SIZE;
    var i := 0;
    while i < n
      invariant 0 <= i <= n && off == PAGE_HEADER_SIZE + 4 * i
      invariant leafs + ReadLeafs(page, off, n - i) == ReadLeafs(page, PAGE_HEADER_SIZE, n)
    {
      leafs := leafs + [Field(page, off, 4)];
      off := off + 4;
      i := i + 1;
    }
    return TrunkPage(Field(page, 20, 4), leafs);
  }
}
