/**
  The 100-byte database header at the start of page 1 (format/header.go).  The CRC is a
  parameter: nothing here depends on it.
 */
module DbHeader {
  import opened Prelude
  import opened PageFormat

  const HEADER_SIZE: nat := 100

  /** The file signature, "tamnd vector format 1" in ASCII. */
  const MAGIC: seq<Byte> :=
    [116, 97, 109, 110, 100, 32, 118, 101, 99, 116, 111, 114, 32, 102, 111, 114, 109, 97, 116, 32, 49]

  const FORMAT_LEVEL: Byte := 1

  datatype Header = Header(
    pageSize: nat, formatWrite: Byte, formatRead: Byte,
    changeCounter: nat, pageCount: nat, freelistTrunk: nat, freelistCount: nat, catalogRoot: nat,
    collectionCount: nat, schemaCookie: nat, applicationId: nat, userVersion: nat,
    flags: Byte, encryption: Byte, textEncoding: Byte, checksum: Byte, reserved: Byte,
    versionValidFor: nat, txnHighWater: nat)
  {
    /** The 32-bit fields from offset 36 on. */
    function Words(): (w: seq<nat>)
      ensures |w| == 9
    {
      [changeCounter, pageCount, freelistTrunk, freelistCount, catalogRoot,
       collectionCount, schemaCookie, applicationId, userVersion]
    }
  }

  /** The field widths, and a page size there is a code for. */
  predicate Fits(h: Header) {
    && ValidPageSize(h.pageSize) && h.versionValidFor < U32 && h.txnHighWater < U64
    && forall i :: 0 <= i < 9 ==> h.Words()[i] < U32
  }

  /** The header of a fresh database. */
  function NewHeader(pageSize: nat, checksum: Byte): Header {
    Header(pageSize, FORMAT_LEVEL, FORMAT_LEVEL, 1, 1, 0, 0, 0, 0, 0, 0, 0, 0, 0, 0, checksum, 0, 1, 0)
  }

  /** Which checksum a header asks for: none, or the CRC. */
  function AlgoOf(kind: Byte, crc: seq<Byte> -> nat): ChecksumAlgo {
    if kind == 0 then ChecksumNone else Crc(crc)
  }

  /** The page ends in the checksum of the rest, if the header asks for checksums. */
  predicate Intact(page: Page, kind: Byte, crc: seq<Byte> -> nat) {
    |page| >= PAGE_CHECKSUM_SIZE && (kind != 0 ==>
      Field(page, |page| - PAGE_CHECKSUM_SIZE, PAGE_CHECKSUM_SIZE) == crc(page[..|page| - PAGE_CHECKSUM_SIZE]) % U32)
  }

  /** Such pages, and no others, pass verification. */
  lemma IntactVerifies(page: Page, kind: Byte, crc: seq<Byte> -> nat)
    requires |page| >= PAGE_CHECKSUM_SIZE
    ensures Intact(page, kind, crc) <==> VerifyPageChecksum(page, AlgoOf(kind, crc)) == Ok(())
  {
  }

  function PageSizeCode(ps: nat): nat {
    if ps == 65536 then 1 else ps % U16
  }

  function PageSizeOf(code: nat): Option<nat> {
    if code == 1 then Some(65536) else if code < U16 && ValidPageSize(code) then Some(code) else None
  }

  // ---- encoding ----

  /** Everything in front of the header's own checksum. */
  function Front(h: Header): (b: seq<Byte>)
    ensures |b| == 92
  {
    MAGIC + Zeros(11) + (LE(PageSizeCode(h.pageSize), 2) + [h.formatWrite, h.formatRead])
    + LeafBytes(h.Words()) + [h.flags, h.encryption, h.textEncoding, h.checksum, h.reserved, 0, 0, 0]
    + (LE(h.versionValidFor, 4) + LE(h.txnHighWater, 8))
  }

  function HeaderBytes(h: Header, crc: seq<Byte> -> nat): (b: seq<Byte>)
    ensures |b| == HEADER_SIZE
  {
    Front(h) + (LE(AlgoOf(h.checksum, crc).Of(Front(h)), 4) + [0, 0, 0, 0])
  }

  // ---- decoding ----

  datatype HeaderError = TooShort | NotVecFile | CorruptHeader

  /** The fields of a header, given its page size and 32-bit words. */
  function Assemble(buf: seq<Byte>, ps: nat, w: seq<nat>): (h: Header)
    requires |buf| >= HEADER_SIZE && |w| == 9
    ensures h.Words() == w
  {
    Header(ps, buf[34], buf[35], w[0], w[1], w[2], w[3], w[4], w[5], w[6], w[7], w[8],
           buf[72], buf[73], buf[74], buf[75], buf[76], Field(buf, 80, 4), Field(buf, 84, 8))
  }

  function DecodeHeader(buf: seq<Byte>, crc: seq<Byte> -> nat): Result<Header, HeaderError> {
    if |buf| < HEADER_SIZE then Err(TooShort)
    else if buf[..21] != MAGIC || buf[21] != 0 then Err(NotVecFile)
    else
      var ps := PageSizeOf(Field(buf, 32, 2));
      if ps == None then Err(CorruptHeader)
      else
        var h := Assemble(buf, ps.value, ReadLeafs(buf, 36, 9));
        if h.checksum != 0 && AlgoOf(h.checksum, crc).Of(buf[..92]) != Field(buf, 92, 4) then Err(CorruptHeader)
        else if h.textEncoding != 0 then Err(CorruptHeader)
        else Ok(h)
  }

  // ---- round trip ----

  /** The segments of a concatenation, by offset. */
  lemma Segments(a: seq<Byte>, b: seq<Byte>, c: seq<Byte>, d: seq<Byte>, e: seq<Byte>, f: seq<Byte>, rest: seq<Byte>)
    requires |a| == 32 && |b| == 4 && |c| == 36 && |d| == 8 && |e| == 12 && |f| == 8
    ensures var p := a + b + c + d + e + f + rest;
            && p[..32] == a && p[32..36] == b && p[36..72] == c && p[72..80] == d && p[80..92] == e && p[92..100] == f
            && p[..92] == a + b + c + d + e
  {
  }

  /** A slice of a slice. */
  lemma Inner(p: seq<Byte>, off: nat, s: seq<Byte>, i: nat, j: nat)
    requires i <= j <= |s| && off + |s| <= |p| && p[off..off + |s|] == s
    ensures p[off + i..off + j] == s[i..j]
  {
    forall k | i <= k < j ensures p[off + k] == s[k] {
      assert p[off..off + |s|][k] == s[k];
    }
  }

  /** Decoding inverts encoding, whatever follows the header on the page, exactly when the
      text encoding is the one this format knows. */
  lemma DbHeaderRoundTrip(h: Header, crc: seq<Byte> -> nat, rest: seq<Byte>)
    requires Fits(h)
    ensures DecodeHeader(HeaderBytes(h, crc) + rest, crc) == if h.textEncoding == 0 then Ok(h) else Err(CorruptHeader)
  {
    var p, sum := HeaderBytes(h, crc) + rest, AlgoOf(h.checksum, crc).Of(Front(h));
    var a, b := MAGIC + Zeros(11), LE(PageSizeCode(h.pageSize), 2) + [h.formatWrite, h.formatRead];
    var c := LeafBytes(h.Words());
    var d := [h.flags, h.encryption, h.textEncoding, h.checksum, h.reserved, 0, 0, 0];
    var e, f := LE(h.versionValidFor, 4) + LE(h.txnHighWater, 8), LE(sum, 4) + [0, 0, 0, 0];
    assert p == a + b + c + d + e + f + rest;
    Segments(a, b, c, d, e, f, rest);
    ReadFront(p, h, a, b);
    ReadLeafBytes(h.Words(), p, 36);
    ReadKinds(p, h, d);
    ReadTail(p, h, sum, e, f);
    assert Assemble(p, h.pageSize, h.Words()) == h;
  }

  lemma ReadKinds(p: seq<Byte>, h: Header, d: seq<Byte>)
    requires |p| >= HEADER_SIZE
    requires p[72..80] == d == [h.flags, h.encryption, h.textEncoding, h.checksum, h.reserved, 0, 0, 0]
    ensures p[72] == h.flags && p[73] == h.encryption && p[74] == h.textEncoding && p[75] == h.checksum
    ensures p[76] == h.reserved
  {
    assert p[72] == d[0] && p[73] == d[1] && p[74] == d[2] && p[75] == d[3] && p[76] == d[4];
  }

  lemma ReadFront(p: seq<Byte>, h: Header, a: seq<Byte>, b: seq<Byte>)
    requires Fits(h) && |p| >= HEADER_SIZE && p[..32] == a == MAGIC + Zeros(11)
    requires p[32..36] == b == LE(PageSizeCode(h.pageSize), 2) + [h.formatWrite, h.formatRead]
    ensures p[..21] == MAGIC && p[21] == 0 && PageSizeOf(Field(p, 32, 2)) == Some(h.pageSize)
    ensures p[34] == h.formatWrite && p[35] == h.formatRead
  {
    assert p[..21] == a[..21] && p[21] == a[21];
    Inner(p, 32, b, 0, 2);
    assert p[32..34] == LE(PageSizeCode(h.pageSize), 2);
    assert p[34] == b[2] && p[35] == b[3];
    Pow256Values();
    LERoundTrip(PageSizeCode(h.pageSize), 2);
  }

  lemma ReadTail(p: seq<Byte>, h: Header, sum: nat, e: seq<Byte>, f: seq<Byte>)
    requires Fits(h) && |p| >= HEADER_SIZE && sum < U32
    requires p[80..92] == e == LE(h.versionValidFor, 4) + LE(h.txnHighWater, 8)
    requires p[92..100] == f == LE(sum, 4) + [0, 0, 0, 0]
    ensures Field(p, 80, 4) == h.versionValidFor && Field(p, 84, 8) == h.txnHighWater && Field(p, 92, 4) == sum
  {
    Pow256Values();
    Inner(p, 80, e, 0, 4);
    Inner(p, 80, e, 4, 12);
    Inner(p, 92, f, 0, 4);
    LERoundTrip(h.versionValidFor, 4);
    LERoundTrip(h.txnHighWater, 8);
    LERoundTrip(sum, 4);
  }

  lemma {:induction false} LeafAt(page: Page, off: nat, n: nat, i: nat)
    requires off + 4 * n <= |page| && i < n
    ensures ReadLeafs(page, off, n)[i] == Field(page, off + 4 * i, 4)
    decreases n
  {
    if i > 0 {
      LeafAt(page, off + 4, n - 1, i - 1);
    }
  }

  /** Where each field lies. */
  ghost predicate FieldsLie(p: seq<Byte>, h: Header) {
    && |p| >= HEADER_SIZE && p[..21] == MAGIC
    && Field(p, 32, 2) == (if h.pageSize == 65536 then 1 else h.pageSize)
    && p[34] == h.formatWrite && p[35] == h.formatRead
    && Field(p, 36, 4) == h.changeCounter && Field(p, 40, 4) == h.pageCount && Field(p, 44, 4) == h.freelistTrunk
    && Field(p, 48, 4) == h.freelistCount && Field(p, 52, 4) == h.catalogRoot && Field(p, 56, 4) == h.collectionCount
    && Field(p, 60, 4) == h.schemaCookie && Field(p, 64, 4) == h.applicationId && Field(p, 68, 4) == h.userVersion
    && p[72] == h.flags && p[73] == h.encryption && p[74] == h.textEncoding && p[75] == h.checksum
    && p[76] == h.reserved && Field(p, 80, 4) == h.versionValidFor && Field(p, 84, 8) == h.txnHighWater
  }

  /** A header that decodes has its fields there. */
  lemma FieldsDecoded(p: seq<Byte>, crc: seq<Byte> -> nat)
    requires DecodeHeader(p, crc).Ok?
    ensures FieldsLie(p, DecodeHeader(p, crc).value)
  {
    var h := DecodeHeader(p, crc).value;
    forall i: nat | i < 9 ensures h.Words()[i] == Field(p, 36 + 4 * i, 4) {
      LeafAt(p, 36, 9, i);
    }
    assert h.Words()[0] == Field(p, 36, 4) && h.Words()[1] == Field(p, 40, 4) && h.Words()[2] == Field(p, 44, 4);
    assert h.Words()[3] == Field(p, 48, 4) && h.Words()[4] == Field(p, 52, 4) && h.Words()[5] == Field(p, 56, 4);
    assert h.Words()[6] == Field(p, 60, 4) && h.Words()[7] == Field(p, 64, 4) && h.Words()[8] == Field(p, 68, 4);
  }

  /** So the encoder puts them there too. */
  lemma DbHeaderLayout(h: Header, crc: seq<Byte> -> nat, rest: seq<Byte>)
    requires Fits(h) && h.textEncoding == 0
    ensures FieldsLie(HeaderBytes(h, crc) + rest, h)
  {
    DbHeaderRoundTrip(h, crc, rest);
    FieldsDecoded(HeaderBytes(h, crc) + rest, crc);
  }

  // ---- what decoding promises ----

  lemma {:induction false} FieldBound(b: seq<Byte>)
    ensures FromLE(b) < Pow256(|b|)
  {
    if b != [] {
      FieldBound(b[1..]);
    }
  }

  lemma {:induction false} LeafBound(page: Page, off: nat, n: nat)
    requires off + 4 * n <= |page|
    ensures forall i :: 0 <= i < n ==> ReadLeafs(page, off, n)[i] < U32
    decreases n
  {
    if n > 0 {
      Pow256Values();
      FieldBound(page[off..off + 4]);
      LeafBound(page, off + 4, n - 1);
    }
  }

  lemma AssembledFits(buf: seq<Byte>, ps: nat)
    requires |buf| >= HEADER_SIZE && ValidPageSize(ps)
    ensures Fits(Assemble(buf, ps, ReadLeafs(buf, 36, 9)))
  {
    Pow256Values();
    LeafBound(buf, 36, 9);
    FieldBound(buf[80..84]);
    FieldBound(buf[84..92]);
  }

  /** A header that decodes fits its fields, and with checksums on it carries the checksum
      of the bytes in front. */
  lemma DecodedFits(buf: seq<Byte>, crc: seq<Byte> -> nat)
    requires DecodeHeader(buf, crc).Ok?
    ensures var h := DecodeHeader(buf, crc).value;
            Fits(h) && h.textEncoding == 0 && (h.checksum != 0 ==> Field(buf, 92, 4) == crc(buf[..92]) % U32)
  {
    AssembledFits(buf, PageSizeOf(Field(buf, 32, 2)).value);
  }
}
