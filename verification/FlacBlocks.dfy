/**
 The files FLAC analysis accepts, said without parsing: the marker followed by
 well-formed metadata blocks. And why analysing the beginning of a file is enough.
 */
module FlacBlocks {
  import opened Common
  import opened ByteData
  import opened Flac

  datatype Block = Block(blockType: Byte, body: Bytes)

  predicate BlockOk(b: Block) {
    && b.blockType < 0x80 && |b.body| < U24
    && (b.blockType == STREAMINFO ==> |b.body| == STREAMINFO_SIZE)
  }

  function EncodeBlock(b: Block, isLast: bool): Bytes {
    WriteBlockHeader(isLast, b.blockType, |b.body|) + b.body
  }

  /** The blocks one after another, the last one flagged. */
  function EncodeBlocks(bs: seq<Block>): Bytes {
    if bs == [] then []
    else EncodeBlock(bs[0], |bs| == 1) + EncodeBlocks(bs[1..])
  }

  function TotalLength(bs: seq<Block>): nat {
    if bs == [] then 0 else HEADER_SIZE + |bs[0].body| + TotalLength(bs[1..])
  }

  /** The data of the last STREAMINFO among the blocks, or what was found before. */
  function LastInfo(bs: seq<Block>, info: Option<Bytes>): Option<Bytes> {
    if bs == [] then info
    else LastInfo(bs[1..], if bs[0].blockType == STREAMINFO then Some(bs[0].body) else info)
  }

  /** How much of the encoded blocks has to be there: everything up to the last
      header, and the last body too if it is a STREAMINFO. */
  function Needed(bs: seq<Block>): nat {
    if bs == [] then 0
    else if |bs| == 1 then HEADER_SIZE + if bs[0].blockType == STREAMINFO then |bs[0].body| else 0
    else HEADER_SIZE + |bs[0].body| + Needed(bs[1..])
  }

  ghost predicate WellFormed(bs: seq<Block>) {
    bs != [] && forall b :: b in bs ==> BlockOk(b)
  }

  /** As far as both go, they are the same. */
  ghost predicate Agrees(a: Bytes, b: Bytes) {
    forall i :: 0 <= i < |a| && i < |b| ==> a[i] == b[i]
  }

  /** The data agrees with these blocks as far as it goes, and goes far enough. */
  ghost predicate Holds(data: Bytes, bs: seq<Block>) {
    Needed(bs) <= |data| && Agrees(data, EncodeBlocks(bs))
  }

  lemma AgreesJoin(data: Bytes, x: Bytes, y: Bytes)
    ensures Agrees(data, x + y) <==> Agrees(data, x) && (|x| <= |data| ==> Agrees(data[|x|..], y))
  {
    if Agrees(data, x + y) {
      forall i | 0 <= i < |data| && i < |x| ensures data[i] == x[i] { assert (x + y)[i] == x[i]; }
      if |x| <= |data| {
        forall i | 0 <= i < |data[|x|..]| && i < |y| ensures data[|x|..][i] == y[i] {
          assert (x + y)[|x| + i] == y[i];
        }
      }
    }
    if Agrees(data, x) && (|x| <= |data| ==> Agrees(data[|x|..], y)) {
      forall i | 0 <= i < |data| && i < |x + y| ensures data[i] == (x + y)[i] {
        assert i >= |x| ==> data[|x|..][i - |x|] == y[i - |x|];
      }
    }
  }

  lemma AgreesStart(data: Bytes, x: Bytes)
    requires |x| <= |data|
    ensures Agrees(data, x) <==> data[..|x|] == x
  {
    if Agrees(data, x) { assert data[..|x|] == x; }
    if data[..|x|] == x {
      forall i | 0 <= i < |x| ensures data[i] == x[i] { assert data[..|x|][i] == x[i]; }
    }
  }

  lemma {:induction false} EncodedLength(bs: seq<Block>)
    ensures |EncodeBlocks(bs)| == TotalLength(bs) && Needed(bs) <= TotalLength(bs)
    decreases |bs|
  {
    if bs != [] { EncodedLength(bs[1..]); }
  }

  /** One step of Holds. */
  lemma HoldsStep(data: Bytes, bs: seq<Block>)
    requires bs != [] && BlockOk(bs[0]) && HEADER_SIZE <= |data|
    ensures var h, end := WriteBlockHeader(|bs| == 1, bs[0].blockType, |bs[0].body|), HEADER_SIZE + |bs[0].body|;
      Agrees(data, EncodeBlocks(bs)) <==>
        && data[..HEADER_SIZE] == h
        && Agrees(data[HEADER_SIZE..], bs[0].body)
        && (end <= |data| ==> Agrees(data[end..], EncodeBlocks(bs[1..])))
  {
    var h, body := WriteBlockHeader(|bs| == 1, bs[0].blockType, |bs[0].body|), bs[0].body;
    var tail := EncodeBlocks(bs[1..]);
    assert EncodeBlocks(bs) == h + (body + tail) by { assert (h + body) + tail == h + (body + tail); }
    hide WriteBlockHeader, EncodeBlocks, Agrees;
    AgreesJoin(data, h, body + tail);
    AgreesStart(data, h);
    AgreesJoin(data[HEADER_SIZE..], body, tail);
    assert HEADER_SIZE + |body| <= |data| ==> data[HEADER_SIZE..][|body|..] == data[HEADER_SIZE + |body|..];
  }

  /** What a scan makes of data that starts with a written header. */
  lemma ScanWritten(data: Bytes, isLast: bool, b: Block, info: Option<Bytes>)
    requires BlockOk(b) && HEADER_SIZE <= |data|
    requires data[..HEADER_SIZE] == WriteBlockHeader(isLast, b.blockType, |b.body|)
    ensures ParseBlockHeader(data) == Some(BlockHeader(isLast, b.blockType, |b.body|))
  {
    HeaderReads(isLast, b.blockType, |b.body|, data[HEADER_SIZE..]);
    assert data == data[..HEADER_SIZE] + data[HEADER_SIZE..];
    hide WriteBlockHeader, ParseBlockHeader;
  }

  lemma HeldHeader(data: Bytes, bs: seq<Block>, info: Option<Bytes>)
    requires WellFormed(bs) && Holds(data, bs)
    ensures BlockOk(bs[0]) && HEADER_SIZE <= |data|
    ensures var h, end := BlockHeader(|bs| == 1, bs[0].blockType, |bs[0].body|), HEADER_SIZE + |bs[0].body|;
      && ParseBlockHeader(data) == Some(h)
      && InfoOf(h, data, info) == (if bs[0].blockType == STREAMINFO then Some(bs[0].body) else info)
      && (bs[0].blockType == STREAMINFO ==> end <= |data|)
      && (|bs| > 1 ==> end <= |data| && WellFormed(bs[1..]) && Holds(data[end..], bs[1..]))
  {
    var b, rest := bs[0], bs[1..];
    assert BlockOk(b);
    HoldsStep(data, bs);
    ScanWritten(data, |bs| == 1, b, info);
    hide ParseBlockHeader, WriteBlockHeader, EncodeBlocks, Agrees;
    if b.blockType == STREAMINFO {
      AgreesStart(data[HEADER_SIZE..], b.body);
      assert data[HEADER_SIZE..][..|b.body|] == data[HEADER_SIZE..HEADER_SIZE + |b.body|];
    }
    if |bs| > 1 {
      assert WellFormed(rest) by { forall c | c in rest ensures BlockOk(c) { assert c in bs; } }
    }
  }

  lemma ScanGood(data: Bytes, h: BlockHeader, info: Option<Bytes>, found: Option<Bytes>)
    requires ParseBlockHeader(data) == Some(h) && InfoOf(h, data, info) == found
    requires h.blockType == STREAMINFO ==> h.size == STREAMINFO_SIZE && HEADER_SIZE + h.size <= |data|
    requires !h.isLast ==> HEADER_SIZE + h.size <= |data|
    ensures var end := HEADER_SIZE + h.size;
      Scan(data, info) ==
        if h.isLast then
          if found.None? then Err(MissingStreamInfo)
          else Ok(Scanned(end, found.value, if h.blockType == STREAMINFO then end else HEADER_SIZE))
        else Later(Scan(data[end..], found), end)
  {
    hide ParseBlockHeader, InfoOf;
  }

  /** What a scan over these blocks has to find. */
  function Expected(bs: seq<Block>, info: Option<Bytes>): Result<Scanned, FormatError> {
    match LastInfo(bs, info)
    case None => Err(MissingStreamInfo)
    case Some(i) => Ok(Scanned(TotalLength(bs), i, Needed(bs)))
  }

  lemma ExpectedStep(bs: seq<Block>, info: Option<Bytes>)
    requires bs != []
    ensures var b, end := bs[0], HEADER_SIZE + |bs[0].body|;
      var found := if b.blockType == STREAMINFO then Some(b.body) else info;
      Expected(bs, info) ==
        if |bs| > 1 then Later(Expected(bs[1..], found), end)
        else if found.None? then Err(MissingStreamInfo)
        else Ok(Scanned(end, found.value, if b.blockType == STREAMINFO then end else HEADER_SIZE))
  {
    var found := if bs[0].blockType == STREAMINFO then Some(bs[0].body) else info;
    if |bs| == 1 {
      assert bs[1..] == [];
      assert LastInfo(bs[1..], found) == found && TotalLength(bs[1..]) == 0;
    }
  }

  lemma {:induction false} ScanHeld(data: Bytes, bs: seq<Block>, info: Option<Bytes>)
    requires WellFormed(bs) && Holds(data, bs)
    ensures Scan(data, info) == Expected(bs, info)
    decreases |bs|
  {
    HeldHeader(data, bs, info);
    var b, end := bs[0], HEADER_SIZE + |bs[0].body|;
    var found := if b.blockType == STREAMINFO then Some(b.body) else info;
    ScanGood(data, BlockHeader(|bs| == 1, b.blockType, |b.body|), info, found);
    ExpectedStep(bs, info);
    hide Scan, ParseBlockHeader, Holds, InfoOf, Expected;
    if |bs| > 1 {
      ScanHeld(data[end..], bs[1..], found);
    }
  }

  /** The block the scan sees at the front of the data; bytes past the end of the
      data, which it never looks at, are taken to be zero. */
  function FirstBlock(data: Bytes): Block
    requires ParseBlockHeader(data).Some?
  {
    var h := ParseBlockHeader(data).value;
    var end := HEADER_SIZE + h.size;
    Block(h.blockType,
          if end <= |data| then data[HEADER_SIZE..end] else data[HEADER_SIZE..] + seq(end - |data|, _ => 0))
  }

  lemma FirstBlockIs(data: Bytes)
    requires ParseBlockHeader(data).Some?
    ensures var h, b := ParseBlockHeader(data).value, FirstBlock(data);
      && HEADER_SIZE <= |data| && b.blockType == h.blockType && |b.body| == h.size && h.blockType < 0x80 && h.size < U24
      && data[..HEADER_SIZE] == WriteBlockHeader(h.isLast, h.blockType, h.size)
      && Agrees(data[HEADER_SIZE..], b.body)
      && (h.blockType == STREAMINFO && h.size == STREAMINFO_SIZE && HEADER_SIZE + h.size <= |data| ==>
        InfoOf(h, data, None) == Some(b.body))
  {
    HeaderRewrites(data);
    hide ParseBlockHeader, WriteBlockHeader;
  }

  /** The blocks a scan goes over. */
  lemma {:induction false} ScanFinds(data: Bytes, info: Option<Bytes>) returns (bs: seq<Block>)
    requires Scan(data, info).Ok?
    ensures WellFormed(bs) && Holds(data, bs) && LastInfo(bs, info).Some?
    decreases |data|
  {
    var h, b := ParseBlockHeader(data).value, FirstBlock(data);
    FirstBlockIs(data);
    assert BlockOk(b);
    hide FirstBlock, ParseBlockHeader, WriteBlockHeader, EncodeBlocks, Agrees;
    if h.isLast {
      bs := [b];
      HoldsStep(data, bs);
    } else {
      var rest := ScanFinds(data[HEADER_SIZE + h.size..], InfoOf(h, data, info));
      bs := [b] + rest;
      assert bs[1..] == rest;
      HoldsStep(data, bs);
    }
  }

  // ----- the whole analysis -----

  /** The file's metadata: the marker, then blocks with a STREAMINFO among them. */
  ghost predicate FlacFile(data: Bytes, bs: seq<Block>) {
    && |MARKER| <= |data| && data[..|MARKER|] == MARKER
    && WellFormed(bs) && LastInfo(bs, None).Some? && Holds(data[|MARKER|..], bs)
  }

  /** Analysis accepts exactly the files made of a marker and well-formed blocks,
      and for those says that the audio begins behind the block flagged last and
      what the last STREAMINFO holds. */
  lemma AnalyzeExact(data: Bytes, fileSize: nat)
    ensures AnalyzeSpec(data, fileSize).Ok? <==> exists bs :: FlacFile(data, bs)
    ensures forall bs :: FlacFile(data, bs) ==>
      AnalyzeSpec(data, fileSize) == Ok(FormatLayout(|MARKER| + TotalLength(bs), fileSize, LastInfo(bs, None)))
  {
    hide Scan, Holds, WellFormed;
    forall bs | FlacFile(data, bs)
      ensures AnalyzeSpec(data, fileSize) == Ok(FormatLayout(|MARKER| + TotalLength(bs), fileSize, LastInfo(bs, None)))
    {
      ScanHeld(data[|MARKER|..], bs, None);
    }
    if AnalyzeSpec(data, fileSize).Ok? {
      var bs := ScanFinds(data[|MARKER|..], None);
      assert FlacFile(data, bs);
    }
  }

  /** A file whose metadata is complete, with anything behind it, is such a file. */
  lemma CompleteFile(bs: seq<Block>, rest: Bytes)
    requires WellFormed(bs) && LastInfo(bs, None).Some?
    ensures FlacFile(MARKER + EncodeBlocks(bs) + rest, bs)
  {
    var data := MARKER + EncodeBlocks(bs) + rest;
    EncodedLength(bs);
    AgreesStart(data[|MARKER|..], EncodeBlocks(bs));
    hide EncodeBlocks, Agrees, Needed, TotalLength, LastInfo;
    assert data[|MARKER|..][..|EncodeBlocks(bs)|] == EncodeBlocks(bs);
  }

  // ----- what it says of the files it does not accept -----

  /** Blocks one after another, none flagged as the last. */
  function EncodeMore(bs: seq<Block>): Bytes {
    if bs == [] then [] else EncodeBlock(bs[0], false) + EncodeMore(bs[1..])
  }

  ghost predicate BlocksOk(bs: seq<Block>) {
    forall b :: b in bs ==> BlockOk(b)
  }

  /** What is wrong with the first block that cannot be gone past, by its four header
      bytes and the bytes there are. */
  predicate Wrong(rest: Bytes, infoSeen: bool, e: FormatError) {
    if |rest| < 4 then e == TruncatedMetadata
    else
      var blockType, size := rest[0] % 0x80, 0x1_0000 * (rest[1] as int) + 0x100 * (rest[2] as int) + (rest[3] as int);
      if blockType == 0 && size != 34 then e == InvalidStreamInfoSize
      else if blockType == 0 && |rest| < 4 + 34 then e == TruncatedStreamInfo
      else if rest[0] >= 0x80 then blockType != 0 && !infoSeen && e == MissingStreamInfo
      else |rest| < 4 + size && e == TruncatedMetadata
  }

  lemma {:induction false} ScanFails(rest: Bytes, info: Option<Bytes>) returns (bs: seq<Block>, tail: Bytes)
    requires Scan(rest, info).Err?
    ensures BlocksOk(bs) && rest == EncodeMore(bs) + tail
    ensures Wrong(tail, LastInfo(bs, info).Some?, Scan(rest, info).error)
    decreases |rest|
  {
    bs, tail := [], rest;
    if |rest| >= HEADER_SIZE {
      var h := ParseBlockHeader(rest).value;
      var end := HEADER_SIZE + h.size;
      if !h.isLast && end <= |rest| && (h.blockType == STREAMINFO ==> h.size == STREAMINFO_SIZE) {
        var b := Block(h.blockType, rest[HEADER_SIZE..end]);
        HeaderRewrites(rest);
        hide WriteBlockHeader, Wrong;
        var more;
        more, tail := ScanFails(rest[end..], InfoOf(h, rest, info));
        bs := [b] + more;
        assert bs[1..] == more;
        assert rest == (rest[..HEADER_SIZE] + b.body) + rest[end..];
        Regroup3(rest[..HEADER_SIZE] + b.body, EncodeMore(more), tail);
      }
    }
  }

  lemma {:induction false} WrongFails(tail: Bytes, info: Option<Bytes>, e: FormatError)
    requires Wrong(tail, info.Some?, e)
    ensures Scan(tail, info) == Err(e)
  {
  }

  lemma BlockInFront(b: Block, rest: Bytes)
    requires BlockOk(b)
    ensures var data, end := EncodeBlock(b, false) + rest, HEADER_SIZE + |b.body|;
      && ParseBlockHeader(data) == Some(BlockHeader(false, b.blockType, |b.body|))
      && end <= |data| && data[HEADER_SIZE..end] == b.body && data[end..] == rest
  {
    var w := WriteBlockHeader(false, b.blockType, |b.body|);
    HeaderReads(false, b.blockType, |b.body|, b.body + rest);
    Regroup3(w, b.body, rest);
    hide WriteBlockHeader, ParseBlockHeader;
  }

  /** A block that is fine is gone past. */
  lemma {:induction false} ScanOver(b: Block, rest: Bytes, info: Option<Bytes>)
    requires BlockOk(b)
    ensures Scan(EncodeBlock(b, false) + rest, info) ==
      Later(Scan(rest, if b.blockType == STREAMINFO then Some(b.body) else info), HEADER_SIZE + |b.body|)
  {
    BlockInFront(b, rest);
    hide EncodeBlock, ParseBlockHeader;
  }

  lemma {:induction false} ScanWrong(bs: seq<Block>, tail: Bytes, info: Option<Bytes>, e: FormatError)
    requires BlocksOk(bs) && Wrong(tail, LastInfo(bs, info).Some?, e)
    ensures Scan(EncodeMore(bs) + tail, info) == Err(e)
    decreases |bs|
  {
    if bs == [] {
      assert EncodeMore(bs) + tail == tail;
      WrongFails(tail, info, e);
    } else {
      assert bs[0] in bs;
      hide Wrong, Scan, EncodeBlock, BlockOk;
      ScanWrong(bs[1..], tail, if bs[0].blockType == STREAMINFO then Some(bs[0].body) else info, e);
      ScanOver(bs[0], EncodeMore(bs[1..]) + tail, info);
      Regroup3(EncodeBlock(bs[0], false), EncodeMore(bs[1..]), tail);
    }
  }

  /** The file is the marker, blocks that are fine, and then something wrong. */
  ghost predicate Breaks(data: Bytes, bs: seq<Block>, tail: Bytes, e: FormatError) {
    BlocksOk(bs) && data == MARKER + (EncodeMore(bs) + tail) && Wrong(tail, LastInfo(bs, None).Some?, e)
  }

  /** Every error has its exact cause. */
  lemma ErrorsExact(data: Bytes, fileSize: nat, e: FormatError)
    ensures AnalyzeSpec(data, fileSize) == Err(e) <==>
      if |data| >= 4 && data[..4] == [0x66, 0x4C, 0x61, 0x43] then exists bs, tail :: Breaks(data, bs, tail, e)
      else e == NotFlac
  {
    if |data| >= 4 && data[..4] == MARKER {
      var rest := data[4..];
      if Scan(rest, None) == Err(e) {
        var bs, tail := ScanFails(rest, None);
        assert data == MARKER + rest;
        assert Breaks(data, bs, tail, e);
      }
      forall bs, tail | Breaks(data, bs, tail, e) ensures Scan(rest, None) == Err(e) {
        assert rest == EncodeMore(bs) + tail;
        ScanWrong(bs, tail, None, e);
      }
      hide Scan, Breaks;
    }
  }

  // ----- analysing only the beginning -----

  /** How much of an accepted file analysis looks at. */
  function Looks(data: Bytes): nat
    requires AnalyzeSpec(data, 0).Ok?
  {
    |MARKER| + Scan(data[|MARKER|..], None).value.needs
  }

  lemma SameHeader(rest: Bytes, n: nat, info: Option<Bytes>)
    requires HEADER_SIZE <= n <= |rest|
    ensures ParseBlockHeader(rest).Some? && ParseBlockHeader(rest[..n]) == ParseBlockHeader(rest)
    ensures var h := ParseBlockHeader(rest).value;
      h.blockType != STREAMINFO || n >= HEADER_SIZE + STREAMINFO_SIZE ==>
        InfoOf(h, rest[..n], info) == InfoOf(h, rest, info)
  {
    assert n >= HEADER_SIZE + STREAMINFO_SIZE ==>
      rest[..n][HEADER_SIZE..HEADER_SIZE + STREAMINFO_SIZE] == rest[HEADER_SIZE..HEADER_SIZE + STREAMINFO_SIZE];
  }

  /** One step of a scan over length bytes, given what the rest makes of it. */
  function Step(h: BlockHeader, length: nat, found: Option<Bytes>, tail: Result<Scanned, FormatError>)
    : Result<Scanned, FormatError>
  {
    var end := HEADER_SIZE + h.size;
    if h.blockType == STREAMINFO && h.size != STREAMINFO_SIZE then Err(InvalidStreamInfoSize)
    else if h.blockType == STREAMINFO && end > length then Err(TruncatedStreamInfo)
    else if h.isLast then
      if found.None? then Err(MissingStreamInfo)
      else Ok(Scanned(end, found.value, if h.blockType == STREAMINFO then end else HEADER_SIZE))
    else if end > length then Err(TruncatedMetadata)
    else Later(tail, end)
  }

  lemma {:induction false} ScanStep(rest: Bytes, info: Option<Bytes>)
    requires ParseBlockHeader(rest).Some?
    ensures var h := ParseBlockHeader(rest).value;
      var end := HEADER_SIZE + h.size;
      Scan(rest, info) == Step(h, |rest|, InfoOf(h, rest, info),
        if end <= |rest| then Scan(rest[end..], InfoOf(h, rest, info)) else Err(TruncatedMetadata))
  {
    hide ParseBlockHeader;
  }

  /** Seeing only n bytes makes a difference to a step only if it looks further. */
  lemma StepPrefix(h: BlockHeader, length: nat, n: nat, found: Option<Bytes>, found': Option<Bytes>,
                   tail: Result<Scanned, FormatError>, tail': Result<Scanned, FormatError>)
    requires HEADER_SIZE <= n <= length
    requires h.blockType != STREAMINFO || n >= HEADER_SIZE + STREAMINFO_SIZE ==> found' == found
    requires var end := HEADER_SIZE + h.size;
      end <= n && (h.blockType == STREAMINFO ==> h.size == STREAMINFO_SIZE) ==>
        && (tail.Ok? && tail.value.needs <= n - end ==> tail' == tail)
        && (tail'.Ok? ==> tail == tail' && tail.value.needs <= n - end)
    ensures var r, r' := Step(h, length, found, tail), Step(h, n, found', tail');
      && (r.Ok? && r.value.needs <= n ==> r' == r)
      && (r'.Ok? ==> r == r' && r.value.needs <= n)
  {
  }

  lemma {:induction false} ScanPrefix(rest: Bytes, n: nat, info: Option<Bytes>)
    requires n <= |rest|
    ensures Scan(rest, info).Ok? && Scan(rest, info).value.needs <= n ==> Scan(rest[..n], info) == Scan(rest, info)
    ensures Scan(rest[..n], info).Ok? ==> Scan(rest, info) == Scan(rest[..n], info) && Scan(rest, info).value.needs <= n
    decreases |rest|
  {
    var short := rest[..n];
    if n < HEADER_SIZE {
      ScanNeeds(rest, info);
      assert Scan(short, info).Err?;
    } else {
      SameHeader(rest, n, info);
      ScanStep(rest, info);
      ScanStep(short, info);
      var h := ParseBlockHeader(rest).value;
      var end := HEADER_SIZE + h.size;
      var found, found' := InfoOf(h, rest, info), InfoOf(h, short, info);
      hide ParseBlockHeader, InfoOf, Scan, Step;
      var tail := if end <= |rest| then Scan(rest[end..], found) else Err(TruncatedMetadata);
      var tail' := if end <= n then Scan(short[end..], found') else Err(TruncatedMetadata);
      if end <= n {
        ScanPrefix(rest[end..], n - end, found);
        assert short[end..] == rest[end..][..n - end];
      }
      StepPrefix(h, |rest|, n, found, found', tail, tail');
    }
  }

  lemma ScanNeeds(rest: Bytes, info: Option<Bytes>)
    ensures Scan(rest, info).Ok? ==> Scan(rest, info).value.needs >= HEADER_SIZE
  {
    hide ParseBlockHeader, InfoOf;
  }

  /** Analysing the first n bytes succeeds exactly when analysing the file does and
      looks no further, and then it finds the same layout. */
  lemma AnalyzePrefix(data: Bytes, n: nat, fileSize: nat)
    requires n <= |data|
    ensures AnalyzeSpec(data[..n], fileSize).Ok? <==> AnalyzeSpec(data, 0).Ok? && Looks(data) <= n
    ensures AnalyzeSpec(data[..n], fileSize).Ok? ==> AnalyzeSpec(data, fileSize) == AnalyzeSpec(data[..n], fileSize)
  {
    if n >= |MARKER| {
      ScanPrefix(data[|MARKER|..], n - |MARKER|, None);
      assert data[..n][|MARKER|..] == data[|MARKER|..][..n - |MARKER|];
      assert data[..n][..|MARKER|] == data[..|MARKER|];
    }
    hide Scan;
  }

  const HEADER_READ_SIZE := 65536

  /** Analysis as the scanner runs it: on the beginning of the file only. */
  method AnalyzeFormatLayout(file: Bytes) returns (r: Option<FormatLayout>)
    ensures r.Some? <==> AnalyzeSpec(file, |file|).Ok? && Looks(file) <= 65536
    ensures r.Some? ==> AnalyzeSpec(file, |file|) == Ok(r.value)
  {
    var n := Min(HEADER_READ_SIZE, |file|);
    AnalyzePrefix(file, n, |file|);
    AnalyzePrefix(file, |file|, |file|);
    assert file[..|file|] == file;
    hide AnalyzeSpec, Looks;
    var layout := Analyze(file[..n], |file|);
    match layout {
      case Ok(l) => return Some(l);
      case Err(_) => return None;
    }
  }
}
