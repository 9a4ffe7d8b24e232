/** One binary block of an ASDF file (the "Blocks" section of the ASDF
    Standard 1.1.0): a 54-byte header, then the stored payload.
    Compression and the MD5 digest are supplied from outside. */
module BlockCodec {
  import opened Wrappers
  import opened BigEndian

  /** `compression_t`. */
  datatype Compression = NoCompression | Bzip2 | Zlib

  /** A 16-byte message digest. */
  type Digest = s: seq<byte> | |s| == 16 witness seq(16, _ => 0)

  /** The libraries the build was configured with (`HAVE_BZIP2`,
      `HAVE_ZLIB`, `HAVE_OPENSSL`); `None` when one is missing. The two
      decompressors are what a reader of the block uses. */
  datatype Libraries = Libraries(
    bzip2: Option<seq<byte> -> seq<byte>>,
    zlib: Option<seq<byte> -> seq<byte>>,
    md5: Option<seq<byte> -> Digest>,
    bunzip2: Option<seq<byte> -> seq<byte>>,
    inflate: Option<seq<byte> -> seq<byte>>)

  /** Block magic token: "SBLK" with the high bit of the "S" set. */
  const Magic: seq<byte> := [0xd3, 0x42, 0x4c, 0x4b]
  const NoTag: seq<byte> := [0, 0, 0, 0]
  const Bzip2Tag: seq<byte> := [0x62, 0x7a, 0x70, 0x32]  // "bzp2"
  const ZlibTag: seq<byte> := [0x7a, 0x6c, 0x69, 0x62]   // "zlib"
  /** Bytes after the `header_size` field: flags 4, compression 4, three
      sizes of 8, checksum 16. */
  const HeaderSize: nat := 48
  /** Bytes before the payload: magic 4, `header_size` 2, then the rest. */
  const HeaderLength: nat := 54
  const TwoTo64: nat := 0x1_0000_0000_0000_0000

  function TagOf(c: Compression): (r: seq<byte>)
    ensures |r| == 4
  {
    match c
    case NoCompression => NoTag
    case Bzip2 => Bzip2Tag
    case Zlib => ZlibTag
  }

  /** The compressor `write_block` would run for `c`, if it was built in. */
  function Compressor(lib: Libraries, c: Compression): Option<seq<byte> -> seq<byte>> {
    match c
    case NoCompression => None
    case Bzip2 => lib.bzip2
    case Zlib => lib.zlib
  }

  /** The compression tag and the bytes that follow the header. */
  datatype Stored = Stored(tag: seq<byte>, bytes: seq<byte>)

  /** The compression step with its fallback: the compressed bytes are kept
      only when a compressor exists and makes the data strictly shorter;
      otherwise the tag is four zero bytes and the original is stored. */
  function StorePayload(lib: Libraries, c: Compression, original: seq<byte>): (r: Stored)
    ensures r.tag == NoTag <==>
              Compressor(lib, c).None? || |Compressor(lib, c).value(original)| >= |original|
    ensures r.tag == NoTag ==> r.bytes == original
    ensures r.tag != NoTag ==>
              && r.tag == TagOf(c) && c != NoCompression
              && r.bytes == Compressor(lib, c).value(original)
              && |r.bytes| < |original|
    ensures |r.bytes| <= |original|
    ensures |r.tag| == 4
  {
    match Compressor(lib, c)
    case None => Stored(NoTag, original)
    case Some(compress) =>
      var outdata := compress(original);
      if |outdata| >= |original| then Stored(NoTag, original) else Stored(TagOf(c), outdata)
  }

  /** The checksum field: the digest of the stored bytes, or sixteen zero
      bytes when no digest is available. */
  function Checksum(lib: Libraries, stored: seq<byte>): (r: Digest) {
    match lib.md5
    case None => Zeros(16)
    case Some(md5) => md5(stored)
  }

  /** The header as `write_block` builds it: field by field, with a
      placeholder `header_size` that is then patched with the 16-bit count
      of header bytes after it. */
  function HeaderBytes(tag: seq<byte>, allocatedSpace: nat, usedSpace: nat, dataSpace: nat,
                       checksum: Digest): (h: seq<byte>)
    requires |tag| == 4
    requires allocatedSpace < TwoTo64 && usedSpace < TwoTo64 && dataSpace < TwoTo64
    ensures |h| == HeaderLength
    ensures h[..4] == Magic
  {
    var header0 := Magic;
    var sizePos := |header0|;
    var header1 := header0 + Encode(0, 2);
    var prefixLength := |header1|;
    var header2 := header1 + Encode(0, 4);
    var header3 := header2 + tag + Encode(allocatedSpace, 8) + Encode(usedSpace, 8)
                   + Encode(dataSpace, 8) + checksum;
    var headerSize := (|header3| - prefixLength) % 0x1_0000;
    header3[..sizePos] + Encode(headerSize, 2) + header3[sizePos + 2..]
  }

  /** `ndarray::write_block`: the header, then the stored payload and the
      padding up to the allocated space. */
  function WriteBlock(lib: Libraries, c: Compression, original: seq<byte>): (r: seq<byte>)
    requires |original| < TwoTo64
    ensures |r| == HeaderLength + |StorePayload(lib, c, original).bytes|
  {
    var stored := StorePayload(lib, c, original);
    var allocatedSpace := |stored.bytes|;
    var usedSpace := allocatedSpace;
    var header := HeaderBytes(stored.tag, allocatedSpace, usedSpace, |original|, Checksum(lib, stored.bytes));
    header + stored.bytes + Zeros(allocatedSpace - usedSpace)
  }

  /** The header fields as a reader finds them. */
  datatype BlockHeader = BlockHeader(
    headerSize: nat, flags: nat, compression: Compression,
    allocatedSpace: nat, usedSpace: nat, dataSpace: nat, checksum: seq<byte>)

  datatype CodecError =
    | Truncated             // fewer bytes than the header announces
    | MalformedHeader       // bad magic, header size or compression tag
    | IntegrityError        // checksum mismatch
    | DecompressionFailure  // no decompressor for the tag
    | SizeMismatch          // decompressed length differs from data_space

  /** The compression a header's tag names; `None` for an unknown tag. */
  function ParseTag(tag: seq<byte>): Option<Compression> {
    if tag == NoTag then Some(NoCompression)
    else if tag == Bzip2Tag then Some(Bzip2)
    else if tag == ZlibTag then Some(Zlib)
    else None
  }

  /** Every tag the writer emits is read back as the compression it names. */
  lemma ParseTagOf(c: Compression)
    ensures ParseTag(TagOf(c)) == Some(c)
  {
    match c
    case NoCompression =>
    case Bzip2 =>
      assert Bzip2Tag[0] != NoTag[0];
    case Zlib =>
      assert ZlibTag[0] != NoTag[0];
      assert ZlibTag[0] != Bzip2Tag[0];
  }

  /** A block as a reader lays it out. */
  datatype ParsedBlock = ParsedBlock(header: BlockHeader, payload: seq<byte>)

  /** Reads one block from the start of `b`, per the standard's layout:
      magic, `header_size` (at least 48), the fixed fields, then
      `used_space` payload bytes inside `allocated_space`. */
  function ParseBlock(b: seq<byte>): (r: Result<ParsedBlock, CodecError>)
    ensures r.Success? ==> |b| >= HeaderLength && b[..4] == Magic
    ensures r.Success? ==>
              && r.value.header.usedSpace <= r.value.header.allocatedSpace
              && |r.value.payload| == r.value.header.usedSpace
              && 6 + r.value.header.headerSize + r.value.header.allocatedSpace <= |b|
  {
    if |b| < 6 then Failure(Truncated)
    else if b[..4] != Magic then Failure(MalformedHeader)
    else
      var headerSize := Decode(b[4..6]);
      if headerSize < HeaderSize then Failure(MalformedHeader)
      else if |b| < 6 + headerSize then Failure(Truncated)
      else match ParseTag(b[10..14])
        case None => Failure(MalformedHeader)
        case Some(c) =>
          var allocatedSpace := Decode(b[14..22]);
          var usedSpace := Decode(b[22..30]);
          var header := BlockHeader(headerSize, Decode(b[6..10]), c, allocatedSpace, usedSpace,
                                    Decode(b[30..38]), b[38..54]);
          if usedSpace > allocatedSpace then Failure(MalformedHeader)
          else if |b| < 6 + headerSize + allocatedSpace then Failure(Truncated)
          else Success(ParsedBlock(header, b[6 + headerSize..6 + headerSize + usedSpace]))
  }

  function Decompressor(lib: Libraries, c: Compression): Option<seq<byte> -> seq<byte>> {
    match c
    case NoCompression => None
    case Bzip2 => lib.bunzip2
    case Zlib => lib.inflate
  }

  /** A checksum of sixteen zero bytes means "not computed" and is never
      compared; otherwise it must match the digest of the stored bytes when
      a digest is available. */
  predicate ChecksumAccepted(lib: Libraries, checksum: seq<byte>, stored: seq<byte>) {
    checksum == Zeros(16) || lib.md5.None? || lib.md5.value(stored) == checksum
  }

  /** Reads one block and returns its uncompressed data. */
  function DecodeBlock(lib: Libraries, b: seq<byte>): (r: Result<seq<byte>, CodecError>)
    ensures r.Success? ==> ParseBlock(b).Success? && |r.value| == ParseBlock(b).value.header.dataSpace
    ensures r.Success? ==> ChecksumAccepted(lib, ParseBlock(b).value.header.checksum, ParseBlock(b).value.payload)
  {
    var block :- ParseBlock(b);
    var h := block.header;
    if !ChecksumAccepted(lib, h.checksum, block.payload) then Failure(IntegrityError)
    else if h.compression == NoCompression then
      if |block.payload| != h.dataSpace then Failure(SizeMismatch) else Success(block.payload)
    else match Decompressor(lib, h.compression)
      case None => Failure(DecompressionFailure)
      case Some(decompress) =>
        var data := decompress(block.payload);
        if |data| != h.dataSpace then Failure(SizeMismatch) else Success(data)
  }

  /** The compression `c` either is not applied, or has a decompressor that
      restores `original`. */
  predicate Reversible(lib: Libraries, c: Compression, original: seq<byte>) {
    Compressor(lib, c).Some? ==>
      Decompressor(lib, c).Some? &&
      Decompressor(lib, c).value(Compressor(lib, c).value(original)) == original
  }

  /** The compression a reader finds recorded in the block. */
  function StoredCompression(lib: Libraries, c: Compression, original: seq<byte>): (r: Compression)
    ensures TagOf(r) == StorePayload(lib, c, original).tag
  {
    if StorePayload(lib, c, original).tag == NoTag then NoCompression else c
  }

  /** The header `write_block` should produce, as the concatenation of its
      fields with `header_size` already 48. */
  function Header(tag: seq<byte>, allocatedSpace: nat, usedSpace: nat, dataSpace: nat,
                  checksum: Digest): (h: seq<byte>)
    requires allocatedSpace < TwoTo64 && usedSpace < TwoTo64 && dataSpace < TwoTo64
    ensures |h| == HeaderLength + |tag| - 4
  {
    Magic + Encode(HeaderSize, 2) + Zeros(4) + tag + Encode(allocatedSpace, 8) + Encode(usedSpace, 8)
    + Encode(dataSpace, 8) + checksum
  }

  /** Patching the placeholder gives the reference header: `header_size`
      becomes 48 and every other byte stays where it was. */
  lemma PatchedHeader(tag: seq<byte>, allocatedSpace: nat, usedSpace: nat, dataSpace: nat, checksum: Digest)
    requires |tag| == 4
    requires allocatedSpace < TwoTo64 && usedSpace < TwoTo64 && dataSpace < TwoTo64
    ensures HeaderBytes(tag, allocatedSpace, usedSpace, dataSpace, checksum) ==
              Header(tag, allocatedSpace, usedSpace, dataSpace, checksum)
  {
    var header3 := Magic + Encode(0, 2) + Encode(0, 4) + tag + Encode(allocatedSpace, 8)
                   + Encode(usedSpace, 8) + Encode(dataSpace, 8) + checksum;
    assert |header3| == 54;
    SmallRemainder(|header3| - 6, 0x1_0000);
    assert HeaderBytes(tag, allocatedSpace, usedSpace, dataSpace, checksum)
           == header3[..4] + Encode(48, 2) + header3[6..];
    PatchField(Magic, Encode(0, 2), Encode(0, 4), tag, Encode(allocatedSpace, 8), Encode(usedSpace, 8),
               Encode(dataSpace, 8), checksum, Encode(48, 2));
    EncodeZero(4);
  }

  /** `write_block` emits the header and then exactly the stored bytes. */
  lemma WriteBlockIsHeaderThenPayload(lib: Libraries, c: Compression, original: seq<byte>)
    requires |original| < TwoTo64
    ensures var stored := StorePayload(lib, c, original);
            WriteBlock(lib, c, original) ==
              Header(stored.tag, |stored.bytes|, |stored.bytes|, |original|, Checksum(lib, stored.bytes)) + stored.bytes
  {
    var stored := StorePayload(lib, c, original);
    PatchedHeader(stored.tag, |stored.bytes|, |stored.bytes|, |original|, Checksum(lib, stored.bytes));
    assert Zeros(0) == [];
  }

  lemma SmallRemainder(x: int, m: int)
    requires 0 <= x < m
    ensures x % m == x
  {
  }

  /** Replacing the second of eight concatenated fields by one of the same
      length leaves the others where they were. */
  lemma PatchField(f1: seq<byte>, f2: seq<byte>, f3: seq<byte>, f4: seq<byte>,
                   f5: seq<byte>, f6: seq<byte>, f7: seq<byte>, f8: seq<byte>, p: seq<byte>)
    requires |f2| == |p|
    ensures var h := f1 + f2 + f3 + f4 + f5 + f6 + f7 + f8;
            h[..|f1|] + p + h[|f1| + |f2|..] == f1 + p + f3 + f4 + f5 + f6 + f7 + f8
  {
    var h := f1 + f2 + f3 + f4 + f5 + f6 + f7 + f8;
    assert h[..|f1|] == f1;
    assert h[|f1| + |f2|..] == f3 + f4 + f5 + f6 + f7 + f8;
  }

  /** Where each of eight consecutive fields of the header lengths lies. */
  lemma FieldOffsets(f1: seq<byte>, f2: seq<byte>, f3: seq<byte>, f4: seq<byte>,
                     f5: seq<byte>, f6: seq<byte>, f7: seq<byte>, f8: seq<byte>)
    requires |f1| == 4 && |f2| == 2 && |f3| == 4 && |f4| == 4
    requires |f5| == 8 && |f6| == 8 && |f7| == 8 && |f8| == 16
    ensures var h := f1 + f2 + f3 + f4 + f5 + f6 + f7 + f8;
            && h[..4] == f1 && h[4..6] == f2 && h[6..10] == f3 && h[10..14] == f4
            && h[14..22] == f5 && h[22..30] == f6 && h[30..38] == f7 && h[38..54] == f8
  {
  }

  /** Bytes within a prefix are not moved by what follows it. */
  lemma SliceOfPrefix(s: seq<byte>, rest: seq<byte>, i: nat, j: nat)
    requires i <= j <= |s|
    ensures (s + rest)[i..j] == s[i..j]
  {
  }

  /** The bytes `write_block` emits, field by field, once the header is
      known to be the reference one: the patched `header_size` is 48, the
      flags are zero, the compression tag follows, then `allocated_space`,
      `used_space` and `data_space`, the checksum, and the payload right
      after the 54 header bytes. */
  lemma HeaderLayout(tag: seq<byte>, allocatedSpace: nat, usedSpace: nat, dataSpace: nat,
                     checksum: Digest, payload: seq<byte>)
    requires |tag| == 4
    requires allocatedSpace < TwoTo64 && usedSpace < TwoTo64 && dataSpace < TwoTo64
    ensures var r := Header(tag, allocatedSpace, usedSpace, dataSpace, checksum) + payload;
            && |r| == HeaderLength + |payload|
            && r[..4] == Magic
            && r[4..6] == Encode(HeaderSize, 2)
            && r[6..10] == Zeros(4)
            && r[10..14] == tag
            && r[14..22] == Encode(allocatedSpace, 8)
            && r[22..30] == Encode(usedSpace, 8)
            && r[30..38] == Encode(dataSpace, 8)
            && r[38..54] == checksum
            && r[54..] == payload
  {
    var h := Header(tag, allocatedSpace, usedSpace, dataSpace, checksum);
    FieldOffsets(Magic, Encode(HeaderSize, 2), Zeros(4), tag, Encode(allocatedSpace, 8),
                 Encode(usedSpace, 8), Encode(dataSpace, 8), checksum);
    SliceOfPrefix(h, payload, 0, 4);
    SliceOfPrefix(h, payload, 4, 6);
    SliceOfPrefix(h, payload, 6, 10);
    SliceOfPrefix(h, payload, 10, 14);
    SliceOfPrefix(h, payload, 14, 22);
    SliceOfPrefix(h, payload, 22, 30);
    SliceOfPrefix(h, payload, 30, 38);
    SliceOfPrefix(h, payload, 38, 54);
  }

  /** A reader parses a written block back into the fields `write_block`
      put there, whatever follows it in the stream. */
  lemma ParseWrittenBlock(lib: Libraries, c: Compression, original: seq<byte>, rest: seq<byte>)
    requires |original| < TwoTo64
    ensures var stored := StorePayload(lib, c, original);
            ParseBlock(WriteBlock(lib, c, original) + rest) ==
              Success(ParsedBlock(
                BlockHeader(HeaderSize, 0, StoredCompression(lib, c, original),
                            |stored.bytes|, |stored.bytes|, |original|, Checksum(lib, stored.bytes)),
                stored.bytes))
  {
    var stored := StorePayload(lib, c, original);
    WriteBlockIsHeaderThenPayload(lib, c, original);
    ParseTagOf(StoredCompression(lib, c, original));
    ParseReferenceBlock(stored.tag, StoredCompression(lib, c, original), |original|,
                        Checksum(lib, stored.bytes), stored.bytes, rest);
  }

  /** A reader parses a reference header and its payload back into the
      fields they hold. */
  lemma ParseReferenceBlock(tag: seq<byte>, c: Compression, dataSpace: nat, checksum: Digest,
                            payload: seq<byte>, rest: seq<byte>)
    requires |tag| == 4 && ParseTag(tag) == Some(c)
    requires |payload| < TwoTo64 && dataSpace < TwoTo64
    ensures ParseBlock(Header(tag, |payload|, |payload|, dataSpace, checksum) + payload + rest) ==
              Success(ParsedBlock(BlockHeader(HeaderSize, 0, c, |payload|, |payload|, dataSpace, checksum),
                                  payload))
  {
    var n := |payload|;
    var w := Header(tag, n, n, dataSpace, checksum) + payload;
    HeaderLayout(tag, n, n, dataSpace, checksum, payload);
    SliceOfPrefix(w, rest, 0, 4);
    SliceOfPrefix(w, rest, 4, 6);
    SliceOfPrefix(w, rest, 6, 10);
    SliceOfPrefix(w, rest, 10, 14);
    SliceOfPrefix(w, rest, 14, 22);
    SliceOfPrefix(w, rest, 22, 30);
    SliceOfPrefix(w, rest, 30, 38);
    SliceOfPrefix(w, rest, 38, 54);
    SliceOfPrefix(w, rest, 54, |w|);
    assert Decode(Zeros(4)) == 0 by {
      EncodeZero(4);
    }
  }

  /** Write then read: a block decodes to the original data whenever the
      chosen compression can be undone. */
  lemma WriteThenDecode(lib: Libraries, c: Compression, original: seq<byte>, rest: seq<byte>)
    requires |original| < TwoTo64
    requires Reversible(lib, c, original)
    ensures DecodeBlock(lib, WriteBlock(lib, c, original) + rest) == Success(original)
  {
    ParseWrittenBlock(lib, c, original, rest);
  }
}
