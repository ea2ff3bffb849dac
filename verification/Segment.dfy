/** Backup segments (bulk/segment.go): a checksummed header, frames and a trailer. */
module Segment {
  import opened Prelude

  type Bytes = seq<Byte>

  type Word16 = x: int | 0 <= x < U16
  type Word32 = x: int | 0 <= x < U32
  type Word64 = x: int | 0 <= x < U64
  type Int64 = x: int | -0x8000_0000_0000_0000 <= x < 0x8000_0000_0000_0000

  /** The checksum; nothing here depends on which one. */
  type Crc = Bytes -> Word32

  // ---- big-endian integers ----

  function Put16(v: Word16): (b: Bytes)
    ensures |b| == 2
  {
    [v / 256, v % 256]
  }

  function Read16(b: Bytes): Word16
    requires |b| == 2
  {
    b[0] as int * 256 + b[1] as int
  }

  lemma Word16Trip(v: Word16)
    ensures Read16(Put16(v)) == v
  {
  }

  lemma Word16Back(b: Bytes)
    requires |b| == 2
    ensures Put16(Read16(b)) == b
  {
  }

  function Put32(v: Word32): (b: Bytes)
    ensures |b| == 4
  {
    Put16(v / U16) + Put16(v % U16)
  }

  function Read32(b: Bytes): Word32
    requires |b| == 4
  {
    Read16(b[..2]) as int * U16 + Read16(b[2..]) as int
  }

  lemma Word32Trip(v: Word32)
    ensures Read32(Put32(v)) == v
  {
    Word16Trip(v / U16);
    Word16Trip(v % U16);
    assert Put32(v)[..2] == Put16(v / U16) && Put32(v)[2..] == Put16(v % U16);
  }

  lemma Word32Back(b: Bytes)
    requires |b| == 4
    ensures Put32(Read32(b)) == b
  {
    var high: int, low: int := Read16(b[..2]), Read16(b[2..]);
    assert (high * U16 + low) / U16 == high && (high * U16 + low) % U16 == low;
    Word16Back(b[..2]);
    Word16Back(b[2..]);
    assert b == b[..2] + b[2..];
  }

  function Put64(v: Word64): (b: Bytes)
    ensures |b| == 8
  {
    Put32(v / U32) + Put32(v % U32)
  }

  function Read64(b: Bytes): Word64
    requires |b| == 8
  {
    Read32(b[..4]) as int * U32 + Read32(b[4..]) as int
  }

  lemma Word64Trip(v: Word64)
    ensures Read64(Put64(v)) == v
  {
    Word32Trip(v / U32);
    Word32Trip(v % U32);
    assert Put64(v)[..4] == Put32(v / U32) && Put64(v)[4..] == Put32(v % U32);
  }

  lemma Word64Back(b: Bytes)
    requires |b| == 8
    ensures Put64(Read64(b)) == b
  {
    var high: int, low: int := Read32(b[..4]), Read32(b[4..]);
    assert (high * U32 + low) / U32 == high && (high * U32 + low) % U32 == low;
    Word32Back(b[..4]);
    Word32Back(b[4..]);
    assert b == b[..4] + b[4..];
  }

  /** Conversions between signed and unsigned 64-bit integers. */
  function Unsigned(t: Int64): Word64 {
    if t < 0 then t + U64 else t
  }

  function Signed(u: Word64): Int64 {
    if u < 0x8000_0000_0000_0000 then u else u - U64
  }

  // ---- frames ----

  /** A page image at a committed version. */
  datatype Frame = Frame(pageNo: Word32, version: Word64, commitTS: Int64, data: Bytes)

  datatype Contents = Contents(base: Word64, end: Word64, frames: seq<Frame>)

  const FRAME_PREFIX: nat := 24

  /** The fixed fields; the length is cut to 32 bits. */
  function Prefix(f: Frame): (b: Bytes)
    ensures |b| == FRAME_PREFIX
  {
    Put32(f.pageNo) + Put64(f.version) + Put64(Unsigned(f.commitTS)) + Put32(|f.data| % U32)
  }

  function FrameBytes(crc: Crc, f: Frame): (b: Bytes)
    ensures |b| == FRAME_PREFIX + |f.data| + 4
  {
    Prefix(f) + f.data + Put32(crc(Prefix(f) + f.data))
  }

  type Writer = Frame -> Bytes

  function Write(crc: Crc): Writer {
    (f: Frame) => FrameBytes(crc, f)
  }

  /** Frames written one after the other. */
  function Body(write: Writer, frames: seq<Frame>): Bytes
    decreases |frames|
  {
    if frames == [] then [] else write(frames[0]) + Body(write, frames[1..])
  }

  /** The frame at the front of the bytes, if there is a whole and sound one. */
  function FrontFrame(crc: Crc, s: Bytes): (r: Option<Frame>)
    ensures r.Some? ==> |r.value.data| < U32 && FRAME_PREFIX + |r.value.data| + 4 <= |s|
  {
    if FRAME_PREFIX + 4 > |s| then None
    else
      var size := Read32(s[20..24]);
      var end := FRAME_PREFIX + size;
      if end + 4 > |s| || crc(s[..end]) != Read32(s[end..end + 4]) then None
      else Some(Frame(Read32(s[..4]), Read64(s[4..12]), Signed(Read64(s[12..20])), s[FRAME_PREFIX..end]))
  }

  type Reader = Bytes -> Option<Frame>

  function Front(crc: Crc): Reader {
    (s: Bytes) => FrontFrame(crc, s)
  }

  function FrameSize(f: Frame): nat {
    FRAME_PREFIX + |f.data| + 4
  }

  /** All frames of a body, if it is nothing but frames the reader accepts. */
  function Frames(read: Reader, s: Bytes): Option<seq<Frame>>
    decreases |s|
  {
    if s == [] then Some([])
    else
      var f := read(s);
      if f.None? || FrameSize(f.value) > |s| then None
      else
        var rest := Frames(read, s[FrameSize(f.value)..]);
        if rest.None? then None else Some([f.value] + rest.value)
  }

  lemma PrefixSlices(a: Bytes, b: Bytes, c: Bytes, d: Bytes, tail: Bytes)
    requires |a| == 4 && |b| == 8 && |c| == 8 && |d| == 4
    ensures var s := a + b + c + d + tail;
            s[..4] == a && s[4..12] == b && s[12..20] == c && s[20..24] == d && s[24..] == tail
  {
  }

  lemma FrameSlices(p: Bytes, data: Bytes, sum: Bytes, rest: Bytes)
    requires |p| == FRAME_PREFIX && |sum| == 4
    ensures var s := p + data + sum + rest;
            var end := FRAME_PREFIX + |data|;
            && s[..24] == p && s[..end] == p + data && s[FRAME_PREFIX..end] == data
            && s[end..end + 4] == sum && s[end + 4..] == rest
            && s == p + (data + sum + rest)
  {
  }

  /** Reading a frame laid out field by field. */
  lemma FrontOf(crc: Crc, a: Bytes, b: Bytes, c: Bytes, d: Bytes, data: Bytes, sum: Bytes, rest: Bytes)
    requires |a| == 4 && |b| == 8 && |c| == 8 && |d| == 4 && |sum| == 4
    requires Read32(d) == |data| && crc(a + b + c + d + data) == Read32(sum)
    ensures FrontFrame(crc, a + b + c + d + data + sum + rest)
            == Some(Frame(Read32(a), Read64(b), Signed(Read64(c)), data))
  {
    PrefixSlices(a, b, c, d, data + sum + rest);
    FrameSlices(a + b + c + d, data, sum, rest);
  }

  lemma FieldsTrip(f: Frame)
    requires |f.data| < U32
    ensures Read32(Put32(f.pageNo)) == f.pageNo && Read64(Put64(f.version)) == f.version
    ensures Signed(Read64(Put64(Unsigned(f.commitTS)))) == f.commitTS && Read32(Put32(|f.data|)) == |f.data|
  {
    Word32Trip(f.pageNo);
    Word64Trip(f.version);
    Word64Trip(Unsigned(f.commitTS));
    Word32Trip(|f.data|);
  }

  /** A written frame reads back, whatever follows it. */
  lemma FrameTrip(crc: Crc, f: Frame, rest: Bytes)
    requires |f.data| < U32
    ensures FrontFrame(crc, FrameBytes(crc, f) + rest) == Some(f)
  {
    FieldsTrip(f);
    Word32Trip(crc(Prefix(f) + f.data));
    var a, b, c, d := Put32(f.pageNo), Put64(f.version), Put64(Unsigned(f.commitTS)), Put32(|f.data|);
    PrefixParts(f, a, b, c, d);
    FrontOf(crc, a, b, c, d, f.data, Put32(crc(Prefix(f) + f.data)), rest);
  }

  lemma SignedTrip(u: Word64)
    ensures Unsigned(Signed(u)) == u
  {
  }

  lemma PrefixOf(f: Frame, s: Bytes)
    requires |s| >= 24 && |f.data| == Read32(s[20..24])
    requires f.pageNo == Read32(s[..4]) && f.version == Read64(s[4..12]) && f.commitTS == Signed(Read64(s[12..20]))
    ensures Prefix(f) == s[..24]
  {
    SignedTrip(Read64(s[12..20]));
    Word32Back(s[..4]);
    Word64Back(s[4..12]);
    Word64Back(s[12..20]);
    Word32Back(s[20..24]);
    PrefixParts(f, s[..4], s[4..12], s[12..20], s[20..24]);
    FourJoin(s);
  }

  lemma PrefixParts(f: Frame, a: Bytes, b: Bytes, c: Bytes, d: Bytes)
    requires |f.data| < U32
    requires Put32(f.pageNo) == a && Put64(f.version) == b && Put64(Unsigned(f.commitTS)) == c && Put32(|f.data|) == d
    ensures Prefix(f) == a + b + c + d
  {
  }

  lemma FourJoin(s: Bytes)
    requires |s| >= 24
    ensures s[..24] == s[..4] + s[4..12] + s[12..20] + s[20..24]
  {
  }

  lemma Reassembled(s: Bytes, i: nat, j: nat)
    requires i <= j && j + 4 <= |s|
    ensures s[..j + 4] == s[..i] + s[i..j] + s[j..j + 4] && s[..j] == s[..i] + s[i..j]
  {
  }

  /** A frame that was accepted is written back as the same bytes. */
  lemma FrameBack(crc: Crc, s: Bytes)
    requires FrontFrame(crc, s).Some?
    ensures var f := FrontFrame(crc, s).value;
            s[..FRAME_PREFIX + |f.data| + 4] == FrameBytes(crc, f)
  {
    var f := FrontFrame(crc, s).value;
    var end := FRAME_PREFIX + |f.data|;
    PrefixOf(f, s);
    Reassembled(s, FRAME_PREFIX, end);
    Word32Back(s[end..end + 4]);
  }

  lemma {:induction false} BodyTrip(crc: Crc, frames: seq<Frame>)
    requires forall i :: 0 <= i < |frames| ==> |frames[i].data| < U32
    ensures Frames(Front(crc), Body(Write(crc), frames)) == Some(frames)
    decreases |frames|
  {
    if frames != [] {
      var f, rest := frames[0], Body(Write(crc), frames[1..]);
      FrameTrip(crc, f, rest);
      BodyTrip(crc, frames[1..]);
      assert (FrameBytes(crc, f) + rest)[FRAME_PREFIX + |f.data| + 4..] == rest;
      assert frames == [f] + frames[1..];
    }
  }

  lemma {:induction false} BodyBack(crc: Crc, s: Bytes)
    requires Frames(Front(crc), s).Some?
    ensures Body(Write(crc), Frames(Front(crc), s).value) == s
    ensures forall i :: 0 <= i < |Frames(Front(crc), s).value| ==> |Frames(Front(crc), s).value[i].data| < U32
    decreases |s|
  {
    if s != [] {
      var f := FrontFrame(crc, s).value;
      var n := FRAME_PREFIX + |f.data| + 4;
      FrameBack(crc, s);
      BodyBack(crc, s[n..]);
      assert s == s[..n] + s[n..];
    }
  }

  // ---- segments ----

  const HEADER_SIZE: nat := 32
  const TRAILER_SIZE: nat := 8
  const FORMAT_VERSION: nat := 1
  const TRAILER_MAGIC: nat := 0x76656357
  const MAGIC: Bytes := [0x76, 0x65, 0x63, 0x57]

  function HeaderFields(c: Contents): (b: Bytes)
    ensures |b| == 28
  {
    MAGIC + Put32(FORMAT_VERSION) + Put64(c.base) + Put64(c.end) + Put32(|c.frames| % U32)
  }

  /** The bytes of a segment. */
  function Encoded(crc: Crc, c: Contents): Bytes {
    var body := Body(Write(crc), c.frames);
    HeaderFields(c) + Put32(crc(HeaderFields(c))) + body + (Put32(crc(body)) + Put32(TRAILER_MAGIC))
  }

  /** What the bytes hold, if every check passes. */
  function Decoded(crc: Crc, b: Bytes): Option<Contents> {
    if |b| < HEADER_SIZE + TRAILER_SIZE then None
    else if b[..4] != MAGIC || Read32(b[4..8]) != FORMAT_VERSION || crc(b[..28]) != Read32(b[28..32]) then None
    else
      var n := |b| - TRAILER_SIZE;
      var body := b[HEADER_SIZE..n];
      if crc(body) != Read32(b[n..n + 4]) || Read32(b[n + 4..]) != TRAILER_MAGIC then None
      else
        var frames := Frames(Front(crc), body);
        if frames.None? || |frames.value| % U32 != Read32(b[24..28]) then None
        else Some(Contents(Read64(b[8..16]), Read64(b[16..24]), frames.value))
  }

  /** Decoding undoes encoding exactly when every frame's length fits in 32 bits. */
  lemma SegmentRoundTrip(crc: Crc, c: Contents)
    ensures Decoded(crc, Encoded(crc, c)) == Some(c) <==> forall i :: 0 <= i < |c.frames| ==> |c.frames[i].data| < U32
  {
    Layout(crc, c);
    if forall i :: 0 <= i < |c.frames| ==> |c.frames[i].data| < U32 {
      BodyTrip(crc, c.frames);
    }
    if Decoded(crc, Encoded(crc, c)) == Some(c) {
      BodyBack(crc, Body(Write(crc), c.frames));
    }
  }

  lemma HeaderSlices(a: Bytes, b: Bytes, c: Bytes, d: Bytes, e: Bytes, tail: Bytes)
    requires |a| == 4 && |b| == 4 && |c| == 8 && |d| == 8 && |e| == 4
    ensures var s := a + b + c + d + e + tail;
            && s[..4] == a && s[4..8] == b && s[8..16] == c && s[16..24] == d && s[24..28] == e
            && s[..28] == a + b + c + d + e && s[28..] == tail
  {
  }

  lemma SegmentSlices(h: Bytes, sum: Bytes, body: Bytes, check: Bytes, magic: Bytes)
    requires |h| == 28 && |sum| == 4 && |check| == 4 && |magic| == 4
    ensures var s := h + sum + body + (check + magic);
            var n := |s| - TRAILER_SIZE;
            && s[28..32] == sum && s[HEADER_SIZE..n] == body && s[n..n + 4] == check && s[n + 4..] == magic
            && s == h + (sum + body + (check + magic))
  {
  }

  /** Where everything lies in an encoded segment. */
  ghost predicate LaidOut(crc: Crc, c: Contents, b: Bytes) {
    && |b| >= HEADER_SIZE + TRAILER_SIZE
    && var n := |b| - TRAILER_SIZE;
    && b[..4] == MAGIC && Read32(b[4..8]) == FORMAT_VERSION && crc(b[..28]) == Read32(b[28..32])
    && Read64(b[8..16]) == c.base && Read64(b[16..24]) == c.end && Read32(b[24..28]) == |c.frames| % U32
    && b[HEADER_SIZE..n] == Body(Write(crc), c.frames) && crc(b[HEADER_SIZE..n]) == Read32(b[n..n + 4])
    && Read32(b[n + 4..]) == TRAILER_MAGIC
  }

  lemma Layout(crc: Crc, c: Contents)
    ensures LaidOut(crc, c, Encoded(crc, c))
  {
    var h, body := HeaderFields(c), Body(Write(crc), c.frames);
    Word32Trip(FORMAT_VERSION);
    Word32Trip(crc(h));
    Word64Trip(c.base);
    Word64Trip(c.end);
    Word32Trip(|c.frames| % U32);
    Word32Trip(crc(body));
    Word32Trip(TRAILER_MAGIC);
    SegmentSlices(h, Put32(crc(h)), body, Put32(crc(body)), Put32(TRAILER_MAGIC));
    HeaderSlices(MAGIC, Put32(FORMAT_VERSION), Put64(c.base), Put64(c.end), Put32(|c.frames| % U32),
                 Put32(crc(h)) + body + (Put32(crc(body)) + Put32(TRAILER_MAGIC)));
  }

  lemma HeaderBack(b: Bytes)
    requires |b| >= 28
    ensures b[..28] == b[..4] + Put32(Read32(b[4..8])) + Put64(Read64(b[8..16])) + Put64(Read64(b[16..24]))
                       + Put32(Read32(b[24..28]))
  {
    Word32Back(b[4..8]);
    Word64Back(b[8..16]);
    Word64Back(b[16..24]);
    Word32Back(b[24..28]);
    assert b[..28] == b[..4] + b[4..8] + b[8..16] + b[16..24] + b[24..28];
  }

  lemma HeaderOf(c: Contents, b: Bytes)
    requires |b| >= 28 && b[..4] == MAGIC && Read32(b[4..8]) == FORMAT_VERSION
    requires c.base == Read64(b[8..16]) && c.end == Read64(b[16..24]) && |c.frames| % U32 == Read32(b[24..28])
    ensures HeaderFields(c) == b[..28]
  {
    HeaderBack(b);
  }

  lemma Rejoined(b: Bytes, n: nat)
    requires HEADER_SIZE <= n && |b| == n + TRAILER_SIZE
    ensures b == b[..28] + b[28..32] + b[HEADER_SIZE..n] + (b[n..n + 4] + b[n + 4..])
  {
  }

  /** Bytes that are accepted are the encoding of what they hold. */
  lemma AcceptedReencodes(crc: Crc, b: Bytes)
    requires Decoded(crc, b).Some?
    ensures Encoded(crc, Decoded(crc, b).value) == b
  {
    var c := Decoded(crc, b).value;
    var n := |b| - TRAILER_SIZE;
    BodyBack(crc, b[HEADER_SIZE..n]);
    HeaderOf(c, b);
    Rejoined(b, n);
    Word32Back(b[28..32]);
    Word32Back(b[n..n + 4]);
    Word32Back(b[n + 4..]);
  }

  // ---- the encoder and the decoder ----

  lemma {:induction false} BodyMore(write: Writer, frames: seq<Frame>, f: Frame)
    ensures Body(write, frames + [f]) == Body(write, frames) + write(f)
    decreases |frames|
  {
    if frames == [] {
      assert [f][1..] == [] && frames + [f] == [f];
    } else {
      BodyMore(write, frames[1..], f);
      assert (frames + [f])[1..] == frames[1..] + [f];
    }
  }

  method EncodeSegment(crc: Crc, base: Word64, end: Word64, frames: seq<Frame>) returns (out: Bytes)
    ensures out == Encoded(crc, Contents(base, end, frames))
  {
    var body: Bytes := [];
    var i := 0;
    while i < |frames|
      invariant 0 <= i <= |frames| && body == Body(Write(crc), frames[..i])
    {
      BodyMore(Write(crc), frames[..i], frames[i]);
      assert frames[..i + 1] == frames[..i] + [frames[i]];
      body := body + FrameBytes(crc, frames[i]);
      i := i + 1;
    }
    assert frames[..i] == frames;
    var header := HeaderFields(Contents(base, end, frames));
    out := header + Put32(crc(header)) + body + (Put32(crc(body)) + Put32(TRAILER_MAGIC));
  }

  datatype BadSegment =
    TooShort | HeaderMagic | Unsupported(version: nat) | HeaderSum | BodySum | TrailerMagic
    | TruncatedHeader | TruncatedData | FrameSum(pageNo: nat, version: nat) | FrameCount(got: nat, want: nat)

  lemma Shift(body: Bytes, off: nat, i: nat, j: nat)
    requires i <= j && off + j <= |body|
    ensures body[off..][i..j] == body[off + i..off + j]
  {
  }

  lemma Joins(body: Bytes, i: nat, j: nat, k: nat)
    requires i <= j <= k <= |body|
    ensures body[i..j] + body[j..k] == body[i..k]
  {
  }

  /** The fixed fields at an offset. */
  lemma FieldsAt(body: Bytes, off: nat)
    requires off + FRAME_PREFIX <= |body|
    ensures var s := body[off..];
            && s[..4] == body[off..off + 4] && s[4..12] == body[off + 4..off + 12]
            && s[12..20] == body[off + 12..off + 20] && s[20..24] == body[off + 20..off + 24]
  {
    Shift(body, off, 0, 4);
    Shift(body, off, 4, 12);
    Shift(body, off, 12, 20);
    Shift(body, off, 20, 24);
  }

  /** The data and checksum at an offset. */
  lemma DataAt(body: Bytes, off: nat, size: nat)
    requires off + FRAME_PREFIX + size + 4 <= |body|
    ensures var s, start := body[off..], off + FRAME_PREFIX;
            && s[..FRAME_PREFIX + size] == body[off..start] + body[start..start + size]
            && s[FRAME_PREFIX..FRAME_PREFIX + size] == body[start..start + size]
            && s[FRAME_PREFIX + size..FRAME_PREFIX + size + 4] == body[start + size..start + size + 4]
  {
    Shift(body, off, 0, FRAME_PREFIX + size);
    Shift(body, off, FRAME_PREFIX, FRAME_PREFIX + size);
    Shift(body, off, FRAME_PREFIX + size, FRAME_PREFIX + size + 4);
    Joins(body, off, off + FRAME_PREFIX, off + FRAME_PREFIX + size);
  }

  /** The frame at an offset of the body. */
  method ReadFrame(crc: Crc, body: Bytes, off: nat) returns (r: Result<Frame, BadSegment>)
    requires off < |body|
    ensures r.Ok? <==> Front(crc)(body[off..]).Some?
    ensures r.Ok? ==> Front(crc)(body[off..]) == Some(r.value) && off + FrameSize(r.value) <= |body|
  {
    if off + FRAME_PREFIX + 4 > |body| {
      return Err(TruncatedHeader);
    }
    FieldsAt(body, off);
    var dataLen := Read32(body[off + 20..off + 24]);
    var dataStart := off + FRAME_PREFIX;
    var dataEnd := dataStart + dataLen;
    if dataEnd + 4 > |body| {
      return Err(TruncatedData);
    }
    DataAt(body, off, dataLen);
    var pageNo, version := Read32(body[off..off + 4]), Read64(body[off + 4..off + 12]);
    if crc(body[off..dataStart] + body[dataStart..dataEnd]) != Read32(body[dataEnd..dataEnd + 4]) {
      return Err(FrameSum(pageNo, version));
    }
    return Ok(Frame(pageNo, version, Signed(Read64(body[off + 12..off + 20])), body[dataStart..dataEnd]));
  }

  /** Reading on from an offset with some frames already read. */
  function ReadOn(read: Reader, body: Bytes, off: nat, frames: seq<Frame>): Option<seq<Frame>>
    requires off <= |body|
    decreases |body| - off
  {
    if off == |body| then Some(frames)
    else
      var f := read(body[off..]);
      if f.None? || off + FrameSize(f.value) > |body| then None
      else ReadOn(read, body, off + FrameSize(f.value), frames + [f.value])
  }

  lemma ReadOnStep(read: Reader, body: Bytes, off: nat, frames: seq<Frame>, f: Frame)
    requires off < |body| && read(body[off..]) == Some(f) && off + FrameSize(f) <= |body|
    ensures ReadOn(read, body, off, frames) == ReadOn(read, body, off + FrameSize(f), frames + [f])
  {
  }

  lemma {:induction false} ReadOnIs(read: Reader, body: Bytes, off: nat, frames: seq<Frame>)
    requires off <= |body|
    ensures var rest := Frames(read, body[off..]);
            ReadOn(read, body, off, frames) == if rest.None? then None else Some(frames + rest.value)
    decreases |body| - off
  {
    if off < |body| {
      var f := read(body[off..]);
      if f.Some? && off + FrameSize(f.value) <= |body| {
        var n := FrameSize(f.value);
        ReadOnIs(read, body, off + n, frames + [f.value]);
        assert body[off..][n..] == body[off + n..];
        var rest := Frames(read, body[off + n..]);
        if rest.Some? {
          assert frames + ([f.value] + rest.value) == (frames + [f.value]) + rest.value;
        }
      }
    } else {
      assert body[off..] == [] && frames + [] == frames;
    }
  }

  /** Reads one frame on. */
  method ReadNext(crc: Crc, body: Bytes, off: nat, frames: seq<Frame>)
    returns (r: Result<seq<Frame>, BadSegment>, next: nat)
    requires off < |body|
    ensures r.Ok? ==>
      off < next <= |body| && ReadOn(Front(crc), body, off, frames) == ReadOn(Front(crc), body, next, r.value)
    ensures r.Err? ==> ReadOn(Front(crc), body, off, frames) == None
  {
    next := off;
    var f := ReadFrame(crc, body, off);
    if f.Err? {
      return Err(f.error), next;
    }
    ReadOnStep(Front(crc), body, off, frames, f.value);
    return Ok(frames + [f.value]), off + FrameSize(f.value);
  }

  method DecodeFrames(crc: Crc, body: Bytes, want: Word32) returns (r: Result<seq<Frame>, BadSegment>)
    ensures r.Ok? <==> Frames(Front(crc), body).Some? && |Frames(Front(crc), body).value| % U32 == want
    ensures r.Ok? ==> Frames(Front(crc), body) == Some(r.value)
  {
    var frames: seq<Frame> := [];
    var off := 0;
    ghost var goal := Frames(Front(crc), body);
    ReadOnIs(Front(crc), body, 0, []);
    assert body[0..] == body;
    assert goal.Some? ==> [] + goal.value == goal.value;
    while off < |body|
      invariant 0 <= off <= |body| && goal == ReadOn(Front(crc), body, off, frames)
    {
      var step;
      step, off := ReadNext(crc, body, off, frames);
      if step.Err? {
        return Err(step.error);
      }
      frames := step.value;
    }
    if |frames| % U32 != want {
      return Err(FrameCount(|frames|, want));
    }
    return Ok(frames);
  }

  method DecodeSegment(crc: Crc, b: Bytes) returns (r: Result<Contents, BadSegment>)
    ensures r.Ok? <==> Decoded(crc, b).Some?
    ensures r.Ok? ==> Decoded(crc, b) == Some(r.value)
  {
    if |b| < HEADER_SIZE + TRAILER_SIZE {
      return Err(TooShort);
    }
    if b[..4] != MAGIC {
      return Err(HeaderMagic);
    }
    if Read32(b[4..8]) != FORMAT_VERSION {
      return Err(Unsupported(Read32(b[4..8])));
    }
    if crc(b[..28]) != Read32(b[28..32]) {
      return Err(HeaderSum);
    }
    var n := |b| - TRAILER_SIZE;
    var body := b[HEADER_SIZE..n];
    if crc(body) != Read32(b[n..n + 4]) {
      return Err(BodySum);
    }
    if Read32(b[n + 4..]) != TRAILER_MAGIC {
      return Err(TrailerMagic);
    }
    var frames := DecodeFrames(crc, body, Read32(b[24..28]));
    if frames.Err? {
      return Err(frames.error);
    }
    return Ok(Contents(Read64(b[8..16]), Read64(b[16..24]), frames.value));
  }
}
