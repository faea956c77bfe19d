/**
 FLAC metadata blocks (sections 8.1 and 8.2 of RFC 9639): block headers, the
 analysis that finds where the audio begins, and the block sequences it accepts.
 */
module Flac {
  import opened Common
  import opened ByteData

  datatype BlockHeader = BlockHeader(isLast: bool, blockType: nat, size: nat)

  datatype FormatLayout = FormatLayout(audioStart: nat, audioEnd: nat, formatData: Option<Bytes>)

  datatype FormatError =
    | NotFlac | TruncatedMetadata | InvalidBlockHeader | InvalidStreamInfoSize | TruncatedStreamInfo
    | MissingStreamInfo | SynthesisFailed

  /** "fLaC" */
  const MARKER: Bytes := [0x66, 0x4C, 0x61, 0x43]

  const STREAMINFO := 0
  const VORBIS_COMMENT := 4
  const STREAMINFO_SIZE := 34
  const HEADER_SIZE := 4
  const U24 := 0x100_0000

  // ----- block headers -----

  function ParseBlockHeader(data: Bytes): Option<BlockHeader> {
    if |data| < HEADER_SIZE then None
    else
      Some(BlockHeader(data[0] >= 0x80, data[0] as int % 0x80,
                       data[1] as int * 0x1_0000 + data[2] as int * 0x100 + data[3] as int))
  }

  /** A byte with its top bit set. */
  function OrHigh(b: Byte): Byte { if b >= 0x80 then b else b + 0x80 }

  function WriteBlockHeader(isLast: bool, blockType: Byte, size: nat): Bytes {
    [if isLast then OrHigh(blockType) else blockType, size / 0x1_0000 % 0x100, size / 0x100 % 0x100, size % 0x100]
  }

  lemma Digits24(n: nat)
    ensures n / 0x1_0000 % 0x100 * 0x1_0000 + n / 0x100 % 0x100 * 0x100 + n % 0x100 == n % U24
  {
    var a, b, c := n / 0x100, n / 0x100 / 0x100, n / 0x100 / 0x100 / 0x100;
    var low := b % 0x100 * 0x1_0000 + a % 0x100 * 0x100 + n % 0x100;
    DivideTwice(n);
    assert n == U24 * c + low;
    Remainder24(c, low);
  }

  /** What comes back from a written header, for any size: only 24 bits of it. */
  lemma HeaderReads(isLast: bool, blockType: Byte, size: nat, rest: Bytes)
    requires blockType < 0x80
    ensures |WriteBlockHeader(isLast, blockType, size)| == HEADER_SIZE
    ensures ParseBlockHeader(WriteBlockHeader(isLast, blockType, size) + rest) ==
      Some(BlockHeader(isLast, blockType, size % U24))
  {
    Digits24(size);
    var h := WriteBlockHeader(isLast, blockType, size);
    assert (h + rest)[0] == h[0] && (h + rest)[1] == h[1] && (h + rest)[2] == h[2] && (h + rest)[3] == h[3];
  }

  /** The bytes are those of section 8.1 of RFC 9639: a flag and seven bits of type,
      then the size with its high byte first. */
  lemma HeaderBits(isLast: bool, blockType: Byte, size: nat)
    requires blockType < 0x80 && size < 0x100_0000
    ensures var w := WriteBlockHeader(isLast, blockType, size);
      && |w| == 4 && w[0] == (if isLast then 0x80 else 0) + blockType
      && 0x1_0000 * (w[1] as int) + 0x100 * (w[2] as int) + (w[3] as int) == size
  {
    Digits24(size);
  }

  /** A written header reads back exactly when type and size fit their bits. */
  lemma HeaderRoundTrip(isLast: bool, blockType: Byte, size: nat, rest: Bytes)
    ensures ParseBlockHeader(WriteBlockHeader(isLast, blockType, size) + rest) ==
      Some(BlockHeader(isLast, blockType, size))
      <==> blockType < 0x80 && size < U24
  {
    var h := WriteBlockHeader(isLast, blockType, size);
    if blockType < 0x80 {
      HeaderReads(isLast, blockType, size, rest);
    } else {
      assert ParseBlockHeader(h + rest).value.blockType < 0x80;
    }
  }

  /** And a header that was read is written back byte for byte. */
  lemma HeaderRewrites(data: Bytes)
    requires |data| >= HEADER_SIZE
    ensures var h := ParseBlockHeader(data).value;
      h.blockType < 0x80 && h.size < U24 && WriteBlockHeader(h.isLast, h.blockType, h.size) == data[..HEADER_SIZE]
  {
    var h := ParseBlockHeader(data).value;
    var n := h.size;
    var x, y, z := data[1] as int, data[2] as int, data[3] as int;
    assert n == 0x100 * (0x100 * x + y) + z;
    assert n / 0x100 == 0x100 * x + y && n % 0x100 == z;
    assert n / 0x1_0000 == x;
  }

  // ----- analysis -----

  /** What a scan over the metadata blocks finds: their total length, the data of
      the last STREAMINFO, and how far it had to look. */
  datatype Scanned = Scanned(length: nat, streamInfo: Bytes, needs: nat)

  function Later(r: Result<Scanned, FormatError>, shift: nat): Result<Scanned, FormatError> {
    match r
    case Ok(s) => Ok(Scanned(shift + s.length, s.streamInfo, shift + s.needs))
    case Err(e) => Err(e)
  }

  function InfoOf(h: BlockHeader, rest: Bytes, info: Option<Bytes>): Option<Bytes> {
    if h.blockType == STREAMINFO && |rest| >= HEADER_SIZE + STREAMINFO_SIZE
    then Some(rest[HEADER_SIZE..HEADER_SIZE + STREAMINFO_SIZE])
    else info
  }

  /** The blocks from here on, given the last STREAMINFO before. */
  function Scan(rest: Bytes, info: Option<Bytes>): Result<Scanned, FormatError>
    decreases |rest|
  {
    match ParseBlockHeader(rest)
    case None => Err(TruncatedMetadata)
    case Some(h) =>
      if h.blockType == STREAMINFO && h.size != STREAMINFO_SIZE then Err(InvalidStreamInfoSize)
      else if h.blockType == STREAMINFO && HEADER_SIZE + h.size > |rest| then Err(TruncatedStreamInfo)
      else
        var found := InfoOf(h, rest, info);
        var end := HEADER_SIZE + h.size;
        if h.isLast then
          if found.None? then Err(MissingStreamInfo)
          else Ok(Scanned(end, found.value, if h.blockType == STREAMINFO then end else HEADER_SIZE))
        else if end > |rest| then Err(TruncatedMetadata)
        else Later(Scan(rest[end..], found), end)
  }

  function AnalyzeSpec(data: Bytes, fileSize: nat): Result<FormatLayout, FormatError> {
    if |data| < |MARKER| || data[..|MARKER|] != MARKER then Err(NotFlac)
    else match Scan(data[|MARKER|..], None)
      case Err(e) => Err(e)
      case Ok(s) => Ok(FormatLayout(|MARKER| + s.length, fileSize, Some(s.streamInfo)))
  }

  /** What the blocks from offset on make of the analysis. */
  function From(data: Bytes, offset: nat, info: Option<Bytes>): Result<(nat, Bytes), FormatError> {
    if offset > |data| then Err(TruncatedMetadata)
    else match Scan(data[offset..], info)
      case Err(e) => Err(e)
      case Ok(s) => Ok((offset + s.length, s.streamInfo))
  }

  /** One block header seen from inside the whole data. */
  lemma FromRound(data: Bytes, offset: nat, info: Option<Bytes>)
    requires offset + HEADER_SIZE <= |data|
    ensures ParseBlockHeader(data[offset..]).Some?
    ensures var h, r := ParseBlockHeader(data[offset..]).value, From(data, offset, info);
      var end := offset + HEADER_SIZE + h.size;
      if h.blockType == STREAMINFO && h.size != STREAMINFO_SIZE then r == Err(InvalidStreamInfoSize)
      else if h.blockType == STREAMINFO && end > |data| then r == Err(TruncatedStreamInfo)
      else
        var found := if h.blockType == STREAMINFO then Some(data[offset + HEADER_SIZE..end]) else info;
        if h.isLast then r == if found.None? then Err(MissingStreamInfo) else Ok((end, found.value))
        else r == From(data, end, found)
  {
    var rest, h := data[offset..], ParseBlockHeader(data[offset..]).value;
    var end := offset + HEADER_SIZE + h.size;
    if end <= |data| {
      assert rest[HEADER_SIZE + h.size..] == data[end..];
      assert h.size == STREAMINFO_SIZE ==>
        rest[HEADER_SIZE..HEADER_SIZE + STREAMINFO_SIZE] == data[offset + HEADER_SIZE..end];
    }
    hide ParseBlockHeader;
  }

  lemma FromEnd(data: Bytes, offset: nat, info: Option<Bytes>)
    requires offset + HEADER_SIZE > |data|
    ensures From(data, offset, info) == Err(TruncatedMetadata)
  {
  }

  method Analyze(data: Bytes, fileSize: nat) returns (r: Result<FormatLayout, FormatError>)
    ensures r == AnalyzeSpec(data, fileSize)
  {
    if |data| < |MARKER| || data[..4] != MARKER { return Err(NotFlac); }
    var offset := |MARKER|;
    var streamInfo: Option<Bytes> := None;
    ghost var whole := From(data, offset, streamInfo);
    assert AnalyzeSpec(data, fileSize) == match whole
      case Err(e) => Err(e)
      case Ok((end, info)) => Ok(FormatLayout(end, fileSize, Some(info)));
    hide AnalyzeSpec, From, Scan, ParseBlockHeader;
    while true
      invariant |MARKER| <= offset && whole == From(data, offset, streamInfo)
      decreases |data| - offset
    {
      if offset + HEADER_SIZE > |data| {
        FromEnd(data, offset, streamInfo);
        return Err(TruncatedMetadata);
      }
      FromRound(data, offset, streamInfo);
      var h := ParseBlockHeader(data[offset..]).value;
      if h.blockType == STREAMINFO {
        if h.size != STREAMINFO_SIZE { return Err(InvalidStreamInfoSize); }
        var dataStart := offset + HEADER_SIZE;
        var dataEnd := dataStart + h.size;
        if dataEnd > |data| { return Err(TruncatedStreamInfo); }
        streamInfo := Some(data[dataStart..dataEnd]);
      }
      offset := offset + HEADER_SIZE + h.size;
      if h.isLast { break; }
    }
    if streamInfo.None? { return Err(MissingStreamInfo); }
    return Ok(FormatLayout(offset, fileSize, streamInfo));
  }
}
