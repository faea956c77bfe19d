/**
 Writing a new header in front of old audio, and what analysis then makes of the
 result.
 */
module FlacSynthesis {
  import opened Common
  import opened ByteData
  import opened Vorbis
  import opened Flac
  import opened FlacBlocks

  /** The header written for this STREAMINFO and this comment block. */
  function HeaderBytes(info: Bytes, comments: Bytes): Bytes {
    MARKER + WriteBlockHeader(false, STREAMINFO, STREAMINFO_SIZE) + info
    + WriteBlockHeader(true, VORBIS_COMMENT, |comments|) + comments
  }

  function SynthesizeSpec(tag: Tag, layout: FormatLayout): Result<Bytes, FormatError> {
    if layout.formatData.None? || |layout.formatData.value| != STREAMINFO_SIZE then Err(SynthesisFailed)
    else Ok(HeaderBytes(layout.formatData.value, Serialize(tag)))
  }

  method Synthesize(tag: Tag, layout: FormatLayout) returns (r: Result<Bytes, FormatError>)
    ensures r == SynthesizeSpec(tag, layout)
  {
    if layout.formatData.None? { return Err(SynthesisFailed); }
    var info := layout.formatData.value;
    if |info| != STREAMINFO_SIZE { return Err(SynthesisFailed); }
    var comments := SerializeVorbisComments(tag);
    hide WriteBlockHeader, Serialize;
    var buffer: Bytes := [];
    buffer := buffer + MARKER;
    assert buffer == MARKER;
    buffer := buffer + WriteBlockHeader(false, STREAMINFO, STREAMINFO_SIZE);
    buffer := buffer + info;
    buffer := buffer + WriteBlockHeader(true, VORBIS_COMMENT, |comments|);
    buffer := buffer + comments;
    return Ok(buffer);
  }

  /** The blocks of a written header: only the low 24 bits of the comments' length
      fit, and the comment block is taken to end there. */
  function HeaderBlocks(info: Bytes, comments: Bytes): seq<Block> {
    [Block(STREAMINFO, info), Block(VORBIS_COMMENT, comments[..|comments| % U24])]
  }

  /** Only the low 24 bits of a size are written. */
  lemma SizeModulo(isLast: bool, blockType: Byte, size: nat)
    ensures WriteBlockHeader(isLast, blockType, size) == WriteBlockHeader(isLast, blockType, size % U24)
  {
    var a, b, c := size / 0x100, size / 0x100 / 0x100, size / 0x100 / 0x100 / 0x100;
    var b0, b1, b2 := size % 0x100, a % 0x100, b % 0x100;
    var low := 0x1_0000 * b2 + 0x100 * b1 + b0;
    assert size == U24 * c + low;
    Remainder24(c, low);
    DropAbove24(0, b0, b1, b2);
    DivideTwice(size);
    DivideTwice(low);
  }

  lemma TwoBlocks(a: Block, b: Block)
    ensures EncodeBlocks([a, b]) == EncodeBlock(a, false) + EncodeBlock(b, true)
    ensures TotalLength([a, b]) == HEADER_SIZE + |a.body| + HEADER_SIZE + |b.body|
    ensures Needed([a, b]) == HEADER_SIZE + |a.body| + HEADER_SIZE + if b.blockType == STREAMINFO then |b.body| else 0
    ensures LastInfo([a, b], None) ==
      if b.blockType == STREAMINFO then Some(b.body) else if a.blockType == STREAMINFO then Some(a.body) else None
  {
    var bs := [a, b];
    hide EncodeBlock;
    assert bs[1..] == [b] && [b][1..] == [];
    assert EncodeBlocks([b]) == EncodeBlock(b, true) + EncodeBlocks([]) == EncodeBlock(b, true);
    assert TotalLength([b]) == HEADER_SIZE + |b.body| + TotalLength([]);
    var info := if a.blockType == STREAMINFO then Some(a.body) else None;
    assert LastInfo([b], info) == LastInfo([b][1..], if b.blockType == STREAMINFO then Some(b.body) else info);
  }

  lemma HeaderIsBlocks(info: Bytes, comments: Bytes)
    requires |info| == STREAMINFO_SIZE
    ensures var bs, m := HeaderBlocks(info, comments), |comments| % U24;
      && WellFormed(bs) && LastInfo(bs, None) == Some(info)
      && |MARKER| + TotalLength(bs) == |HeaderBytes(info, comments)| - |comments| + m
      && HeaderBytes(info, comments) == MARKER + EncodeBlocks(bs) + comments[m..]
  {
    var m := |comments| % U24;
    var bs := HeaderBlocks(info, comments);
    var h1, h2 := WriteBlockHeader(false, STREAMINFO, STREAMINFO_SIZE), WriteBlockHeader(true, VORBIS_COMMENT, m);
    SizeModulo(true, VORBIS_COMMENT, |comments|);
    assert |h1| == HEADER_SIZE && |h2| == HEADER_SIZE;
    TwoBlocks(bs[0], bs[1]);
    assert EncodeBlocks(bs) == (h1 + info) + (h2 + comments[..m]);
    hide WriteBlockHeader, EncodeBlocks, TotalLength, LastInfo;
    assert comments == comments[..m] + comments[m..];
  }

  /** The blocks a player finds in a written header: this STREAMINFO, of type 0, and
      comments, of type 4, that read back as the tag. */
  ghost predicate Carries(bs: seq<Block>, info: Bytes, tag: Tag) {
    && |bs| == 2 && bs[0] == Block(0, info)
    && bs[1].blockType == 4 && Deserialize(bs[1].body) == Some((Written(tag), []))
  }

  /** For every tag whose comments fit a block, the written header, with anything
      behind it, is a FLAC file of just those two blocks. */
  lemma HeaderCarriesTag(tag: Tag, layout: FormatLayout, rest: Bytes) returns (bs: seq<Block>)
    requires layout.formatData.Some? && |layout.formatData.value| == 34
    requires Writable(tag) && |Serialize(tag)| < 0x100_0000
    ensures SynthesizeSpec(tag, layout).Ok?
    ensures var header := SynthesizeSpec(tag, layout).value;
      && FlacFile(header + rest, bs) && |header| == |MARKER| + TotalLength(bs)
      && Carries(bs, layout.formatData.value, tag)
  {
    var info, comments := layout.formatData.value, Serialize(tag);
    bs := HeaderBlocks(info, comments);
    assert comments[..|comments| % U24] == comments && comments[|comments| % U24..] == [];
    HeaderIsBlocks(info, comments);
    CompleteFile(bs, rest);
    SerializeRoundTrip(tag, []);
    assert comments + [] == comments;
    hide HeaderBytes, Serialize, EncodeBlocks, FlacFile, TotalLength, Deserialize, WellFormed, LastInfo;
    assert HeaderBytes(info, comments) == MARKER + EncodeBlocks(bs);
  }

  // ----- analysing what was written -----

  function AudioOf(data: Bytes, layout: FormatLayout): Bytes {
    Between(data, layout.audioStart, layout.audioEnd)
  }

  /** Whatever the comments and the audio, analysis of the new header with the
      audio behind it succeeds and finds the same STREAMINFO; the audio begins where
      the header ends exactly when the comments fit a block. */
  lemma AnalyzeWritten(info: Bytes, comments: Bytes, audio: Bytes, fileSize: nat)
    requires |info| == STREAMINFO_SIZE
    ensures var header := HeaderBytes(info, comments);
      var r := AnalyzeSpec(header + audio, fileSize);
      && r == Ok(FormatLayout(|header| - |comments| + |comments| % U24, fileSize, Some(info)))
      && (r.value.audioStart == |header| <==> |comments| < U24)
  {
    var bs, header := HeaderBlocks(info, comments), HeaderBytes(info, comments);
    var m := |comments| % U24;
    var head := |header| - |comments|;
    HeaderIsBlocks(info, comments);
    CompleteFile(bs, comments[m..] + audio);
    Regroup3(MARKER + EncodeBlocks(bs), comments[m..], audio);
    assert m == |comments| <==> |comments| < U24;
    hide HeaderBytes, HeaderBlocks, EncodeBlocks, WellFormed, LastInfo, TotalLength, FlacFile, AnalyzeSpec;
    AnalyzeExact(header + audio, fileSize);
    assert AnalyzeSpec(header + audio, fileSize) == Ok(FormatLayout(head + m, fileSize, Some(info)));
  }

  /** A file with its header replaced, as the overlay shows it. */
  function Overlaid(data: Bytes, layout: FormatLayout, tag: Tag): Result<Bytes, FormatError> {
    match SynthesizeSpec(tag, layout)
    case Err(e) => Err(e)
    case Ok(header) => Ok(header + AudioOf(data, layout))
  }

  /** Replacing the header preserves the audio: for every file that analysis accepts
      and every tag whose comments fit a block, the result is accepted, its audio
      begins behind the new header and is the old audio, its STREAMINFO is the old
      one, its comments are the tag's, and replacing its header again with the same tag
      changes nothing. */
  lemma OverlayPreservesAudio(data: Bytes, tag: Tag) returns (bs: seq<Block>)
    requires AnalyzeSpec(data, |data|).Ok?
    ensures var layout := AnalyzeSpec(data, |data|).value;
      var shown := Overlaid(data, layout, tag);
      && shown.Ok?
      && (|Serialize(tag)| < U24 ==>
        var header := SynthesizeSpec(tag, layout).value;
        var again := AnalyzeSpec(shown.value, |shown.value|);
        && again == Ok(FormatLayout(|header|, |shown.value|, layout.formatData))
        && AudioOf(shown.value, again.value) == AudioOf(data, layout)
        && Overlaid(shown.value, again.value, tag) == shown
        && (Writable(tag) ==> FlacFile(shown.value, bs) && Carries(bs, layout.formatData.value, tag)))
  {
    var layout := AnalyzeSpec(data, |data|).value;
    StreamInfoSize(data[|MARKER|..], None);
    var info := layout.formatData.value;
    assert |info| == STREAMINFO_SIZE;
    var header := HeaderBytes(info, Serialize(tag));
    var audio := AudioOf(data, layout);
    hide AnalyzeSpec, HeaderBytes, Serialize, FlacFile, Carries, Writable;
    AnalyzeWritten(info, Serialize(tag), audio, |header + audio|);
    AudioBehind(header, audio);
    bs := [];
    if Writable(tag) && |Serialize(tag)| < U24 { bs := HeaderCarriesTag(tag, layout, audio); }
  }

  lemma AudioBehind(header: Bytes, audio: Bytes)
    ensures Between(header + audio, |header|, |header + audio|) == audio
  {
  }

  lemma {:induction false} StreamInfoSize(rest: Bytes, info: Option<Bytes>)
    requires Scan(rest, info).Ok? && (info.Some? ==> |info.value| == STREAMINFO_SIZE)
    ensures |Scan(rest, info).value.streamInfo| == STREAMINFO_SIZE
    decreases |rest|
  {
    var h := ParseBlockHeader(rest).value;
    if !h.isLast { StreamInfoSize(rest[HEADER_SIZE + h.size..], InfoOf(h, rest, info)); }
  }

  // ----- a last block that overruns the file -----

  /** The audio of an accepted file begins inside it exactly when its last block
      ends inside it. */
  lemma AudioInside(data: Bytes, bs: seq<Block>)
    requires FlacFile(data, bs)
    ensures AnalyzeSpec(data, |data|).Ok?
    ensures AnalyzeSpec(data, |data|).value.audioStart <= |data| <==> |MARKER + EncodeBlocks(bs)| <= |data|
  {
    AnalyzeExact(data, |data|);
    EncodedLength(bs);
    hide *;
  }

  /** A STREAMINFO, and a last block that claims one byte but has none. */
  function OverrunBlocks(info: Bytes): seq<Block> { [Block(STREAMINFO, info), Block(VORBIS_COMMENT, [0])] }

  function OverrunCode(info: Bytes): Bytes {
    (WriteBlockHeader(false, STREAMINFO, |info|) + info) + WriteBlockHeader(true, VORBIS_COMMENT, 1)
  }

  lemma OverrunCodeIs(info: Bytes)
    requires |info| == STREAMINFO_SIZE
    ensures var bs, x := OverrunBlocks(info), OverrunCode(info);
      && WellFormed(bs) && |x| == Needed(bs) && LastInfo(bs, None) == Some(info)
      && |MARKER| + TotalLength(bs) == |MARKER + x| + 1
      && EncodeBlocks(bs) == x + [0]
  {
    TwoBlocks(OverrunBlocks(info)[0], OverrunBlocks(info)[1]);
    hide EncodeBlocks, TotalLength, Needed, LastInfo;
    Regroup3(WriteBlockHeader(false, STREAMINFO, |info|) + info, WriteBlockHeader(true, VORBIS_COMMENT, 1), [0]);
  }

  /** Analysis does not ask for it: here the file ends at the header of its last
      block, and its audio is said to begin one byte behind its end. */
  lemma OverrunWitness(info: Bytes)
    requires |info| == STREAMINFO_SIZE
    ensures var data := MARKER + OverrunCode(info);
      AnalyzeSpec(data, |data|) == Ok(FormatLayout(|data| + 1, |data|, Some(info)))
  {
    var bs, x := OverrunBlocks(info), OverrunCode(info);
    var data := MARKER + x;
    OverrunCodeIs(info);
    hide OverrunBlocks, OverrunCode, EncodeBlocks, TotalLength, Needed, LastInfo, WellFormed;
    AgreesJoin(x, x, [0]);
    TakeBack(MARKER, x);
    assert data[..|MARKER|] == MARKER;
    assert FlacFile(data, bs);
    hide FlacFile, AnalyzeSpec, Agrees;
    AnalyzeExact(data, |data|);
  }
}
