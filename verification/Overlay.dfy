/**
 The overlay: a file as its readers see it, with a header made from the current
 metadata in front of the audio stored at its origin.
 */
module Overlays {
  import opened Common
  import opened ByteData
  import opened CasModel
  import opened Chunks
  import opened ContentFetchers
  import opened FileReaders
  import opened Vorbis
  import opened Flac
  import opened FlacBlocks
  import opened FlacSynthesis

  /** The formats with a handler that the overlay's lookup finds, and the others. */
  datatype AudioFormat = FlacFormat | OtherFormat

  datatype StoredLayout = StoredLayout(format: AudioFormat, layout: FormatLayout)

  datatype OverlayError =
    | DatabaseError | Handler(formatError: FormatError) | NoHandler | CasFailed(readerError: ReaderError)

  /** The whole file as shown: the header, then the audio. */
  function Virtual(header: Bytes, content: Bytes, layout: FormatLayout): Bytes {
    header + AudioOf(content, layout)
  }

  lemma HeaderWindow(header: Bytes, audio: Bytes, offset: nat, size: nat)
    requires offset < |header|
    ensures Window(header + audio, offset, size) ==
      header[offset..Min(offset + size, |header|)]
      + Between(audio, 0, if offset + size > |header| then offset + size - |header| else 0)
  {
    var e := Min(offset + size, |header|);
    assert (header + audio)[offset..e] == header[offset..e];
    if offset + size > |header| {
      var k := Min(offset + size - |header|, |audio|);
      assert (header + audio)[offset..|header| + k] == header[offset..] + audio[..k];
      assert header[offset..e] == header[offset..];
    }
  }

  lemma AudioWindow(header: Bytes, audio: Bytes, offset: nat, size: nat)
    requires offset >= |header|
    ensures Window(header + audio, offset, size) == Between(audio, offset - |header|, offset - |header| + size)
  {
    var from := offset - |header|;
    var to := Min(from + size, |audio|);
    if from < to { assert (header + audio)[offset..|header| + to] == audio[from..to]; }
  }

  lemma BetweenOfBetween(d: Bytes, a: nat, b: nat, x: nat, y: nat)
    ensures Between(Between(d, a, b), x, y) == Between(d, a + x, Min(a + y, b))
  {
    var e := Min(b, |d|);
    if a < e {
      assert Between(d, a, b) == d[a..e];
      var m := Min(y, e - a);
      if x < m { SliceOfSlice(d, a, e, x, m); }
    }
  }

  /** The size the overlay gives the virtual file. */
  function VirtualSize(header: Bytes, layout: FormatLayout): nat
    requires layout.audioStart <= layout.audioEnd
  {
    |header| + (layout.audioEnd - layout.audioStart)
  }

  /** The part of a window that comes from the header. */
  function HeaderPart(header: Bytes, offset: nat, virtualEnd: nat): Bytes {
    if offset < Min(virtualEnd, |header|) then header[offset..Min(virtualEnd, |header|)] else []
  }

  /** The part of a window that comes from the origin's audio. */
  function AudioPart(header: Bytes, content: Bytes, layout: FormatLayout, offset: nat, virtualEnd: nat): Bytes
    requires offset <= virtualEnd
  {
    if virtualEnd > |header| then
      var from := Max(|header|, offset);
      Window(content, layout.audioStart + (from - |header|), virtualEnd - from)
    else []
  }

  /** What is asked of the reader beneath, and what it answers, is the audio part. */
  lemma AudioAsked(header: Bytes, d: Bytes, total: nat, layout: FormatLayout, offset: nat, virtualEnd: nat)
    requires virtualEnd > |header| && offset <= virtualEnd && virtualEnd - Max(|header|, offset) < U32
    ensures var from := Max(|header|, offset);
      Shown(d, total, layout.audioStart + (from - |header|), (virtualEnd - from) % U32) ==
        AudioPart(header, d[..Min(total, |d|)], layout, offset, virtualEnd)
  {
    hide Window;
  }

  lemma SpliceFromHeader(header: Bytes, content: Bytes, layout: FormatLayout, offset: nat, size: nat)
    requires layout.audioStart <= layout.audioEnd && offset < |header|
    ensures var virtualEnd := Min(offset + size, VirtualSize(header, layout));
      Window(Virtual(header, content, layout), offset, size) ==
        HeaderPart(header, offset, virtualEnd) + AudioPart(header, content, layout, offset, virtualEnd)
  {
    var audio := AudioOf(content, layout);
    var virtualEnd := Min(offset + size, VirtualSize(header, layout));
    var start, end := layout.audioStart, layout.audioEnd;
    HeaderWindow(header, audio, offset, size);
    var n := if offset + size > |header| then offset + size - |header| else 0;
    BetweenOfBetween(content, start, end, 0, n);
    assert Min(virtualEnd, |header|) == Min(offset + size, |header|);
    hide Between;
    if virtualEnd > |header| {
      assert Min(start + n, end) == start + (virtualEnd - |header|);
    } else {
      BetweenNothing(content, start, Min(start + n, end));
    }
  }

  lemma SpliceFromAudio(header: Bytes, content: Bytes, layout: FormatLayout, offset: nat, size: nat)
    requires layout.audioStart <= layout.audioEnd && |header| <= offset
    ensures var virtualSize := VirtualSize(header, layout);
      var virtualEnd := Min(offset + size, virtualSize);
      Window(Virtual(header, content, layout), offset, size) ==
        if offset >= virtualSize then [] else AudioPart(header, content, layout, offset, virtualEnd)
  {
    hide Between;
    var virtualEnd := Min(offset + size, VirtualSize(header, layout));
    var start, end := layout.audioStart, layout.audioEnd;
    AudioWindow(header, AudioOf(content, layout), offset, size);
    var from := offset - |header|;
    BetweenOfBetween(content, start, end, from, from + size);
    BetweenNothing(content, start + from, Min(start + from + size, end));
    assert virtualEnd > |header| ==> Min(start + from + size, end) == start + from + (virtualEnd - offset);
  }

  /** Header part and audio part together are a window of the virtual file. */
  lemma SpliceIsWindow(header: Bytes, content: Bytes, layout: FormatLayout, offset: nat, size: nat)
    requires layout.audioStart <= layout.audioEnd
    ensures var virtualSize := VirtualSize(header, layout);
      var virtualEnd := Min(offset + size, virtualSize);
      Window(Virtual(header, content, layout), offset, size) ==
        if offset >= virtualSize then []
        else HeaderPart(header, offset, virtualEnd) + AudioPart(header, content, layout, offset, virtualEnd)
  {
    if offset < |header| {
      SpliceFromHeader(header, content, layout, offset, size);
    } else {
      SpliceFromAudio(header, content, layout, offset, size);
      hide Window, Virtual, AudioPart;
    }
  }

  lemma BetweenNothing(d: Bytes, lo: nat, hi: nat)
    ensures hi <= lo ==> Between(d, lo, hi) == []
  {
  }

  /** The window needs audio. */
  predicate NeedsAudio(header: Bytes, layout: FormatLayout, offset: nat, size: nat)
    requires layout.audioStart <= layout.audioEnd
  {
    var virtualSize := VirtualSize(header, layout);
    offset < virtualSize && Min(offset + size, virtualSize) > |header|
  }

  /** The bytes are this window of the virtual file, whatever the content unless
      the window needs it. */
  ghost predicate ShowsWindow(r: Bytes, header: Bytes, content: Bytes, layout: FormatLayout, offset: nat, size: nat)
    requires layout.audioStart <= layout.audioEnd
  {
    forall c :: (NeedsAudio(header, layout, offset, size) ==> c == content) ==>
      r == Window(Virtual(header, c, layout), offset, size)
  }

  lemma ShowsWithoutAudio(header: Bytes, content: Bytes, layout: FormatLayout, offset: nat, size: nat)
    requires layout.audioStart <= layout.audioEnd && !NeedsAudio(header, layout, offset, size)
    ensures var virtualSize := VirtualSize(header, layout);
      var part := if offset >= virtualSize then [] else HeaderPart(header, offset, Min(offset + size, virtualSize));
      ShowsWindow(part, header, content, layout, offset, size)
  {
    forall c { SpliceIsWindow(header, c, layout, offset, size); }
    hide Window, Virtual, HeaderPart;
  }

  lemma ShowsWithAudio(header: Bytes, content: Bytes, layout: FormatLayout, offset: nat, size: nat)
    requires layout.audioStart <= layout.audioEnd && NeedsAudio(header, layout, offset, size)
    ensures var virtualEnd := Min(offset + size, VirtualSize(header, layout));
      var part := HeaderPart(header, offset, virtualEnd) + AudioPart(header, content, layout, offset, virtualEnd);
      ShowsWindow(part, header, content, layout, offset, size)
  {
    SpliceIsWindow(header, content, layout, offset, size);
    hide Window, Virtual, HeaderPart, AudioPart;
  }

  class OverlayReader {
    const casReader: FileReader
    var layouts: map<FileId, StoredLayout>
    var tags: map<FileId, Tag>

    constructor (casReader: FileReader)
      ensures this.casReader == casReader && layouts == map[] && tags == map[]
    {
      this.casReader := casReader;
      layouts, tags := map[], map[];
    }

    /** The header the overlay shows for a file it has a layout for. */
    ghost function Header(id: FileId): Result<Bytes, OverlayError>
      requires id in layouts
      reads this
    {
      if id !in tags then Err(DatabaseError)
      else if layouts[id].format != FlacFormat then Err(NoHandler)
      else match SynthesizeSpec(tags[id], layouts[id].layout)
        case Err(e) => Err(Handler(e))
        case Ok(header) => Ok(header)
    }

    /** Read a byte range of the virtual file. start and d are the manifest and the
        content of the read beneath, if there is one. */
    method Read(id: FileId, offset: nat, size: nat, calm: bool)
      returns (r: Result<Bytes, OverlayError>, ghost start: ChunkManifest, ghost d: Bytes)
      requires casReader.Valid() && size < U32
      requires id in layouts ==> layouts[id].layout.audioStart <= layouts[id].layout.audioEnd
      modifies casReader, casReader.store, casReader.Fetchers()
      ensures casReader.Valid() && casReader.SameSources()
      ensures id !in layouts && r.Ok? ==> r.value == Shown(d, start.totalSize, offset, size)
      ensures id in layouts && Header(id).Err? ==> r == Err(Header(id).error)
      ensures id in layouts && id !in tags ==> r == Err(DatabaseError)
      ensures id in layouts && id in tags && layouts[id].format != FlacFormat ==> r == Err(NoHandler)
      ensures id in layouts && r.Ok? ==>
        && Header(id).Ok?
        && ShowsWindow(r.value, Header(id).value, d[..Min(start.totalSize, |d|)], layouts[id].layout, offset, size)
      ensures calm && old(casReader.Healable(id)) && (id in layouts ==> Header(id).Ok?) ==>
        && r.Ok? && casReader.Healable(id)
        && casReader.fetcher.Source(id) == old(casReader.fetcher.Source(id))
        && (id !in layouts || NeedsAudio(Header(id).value, layouts[id].layout, offset, size) ==>
          && old(casReader.fetcher.Source(id)) == Ok(d)
          && (old(casReader.Settled(id)) ==>
            id in casReader.fetcher.fileMeta && start.totalSize == casReader.fetcher.fileMeta[id].size))
    {
      hide ShowsWindow, Virtual, Shown;
      start, d := ChunkManifest(id, 0, 0, []), [];
      if id !in layouts {
        var got;
        got, start, d := casReader.Read(id, offset, size, calm);
        if got.Err? { return Err(CasFailed(got.error)), start, d; }
        return Ok(got.value), start, d;
      }
      if id !in tags { return Err(DatabaseError), start, d; }
      if layouts[id].format != FlacFormat { return Err(NoHandler), start, d; }
      var synthesized := Synthesize(tags[id], layouts[id].layout);
      if synthesized.Err? { return Err(Handler(synthesized.error)), start, d; }
      hide SynthesizeSpec;
      r, start, d := Splice(id, synthesized.value, layouts[id].layout, offset, size, calm);
    }

    /** The splice itself: header bytes first, audio bytes behind them. */
    method Splice(id: FileId, header: Bytes, layout: FormatLayout, offset: nat, size: nat, calm: bool)
      returns (r: Result<Bytes, OverlayError>, ghost start: ChunkManifest, ghost d: Bytes)
      requires casReader.Valid() && size < U32 && layout.audioStart <= layout.audioEnd
      modifies casReader, casReader.store, casReader.Fetchers()
      ensures casReader.Valid() && casReader.SameSources()
      ensures r.Ok? ==> ShowsWindow(r.value, header, d[..Min(start.totalSize, |d|)], layout, offset, size)
      ensures calm && old(casReader.Healable(id)) ==>
        && r.Ok? && casReader.Healable(id)
        && casReader.fetcher.Source(id) == old(casReader.fetcher.Source(id))
        && (NeedsAudio(header, layout, offset, size) ==>
          && old(casReader.fetcher.Source(id)) == Ok(d)
          && (old(casReader.Settled(id)) ==>
            id in casReader.fetcher.fileMeta && start.totalSize == casReader.fetcher.fileMeta[id].size))
    {
      hide ShowsWindow, Window, FileReader.Valid, FileReader.Healable, FileReader.Settled, FileReader.AtHand,
        FileReader.Current, FileReader.OthersKept, FileReader.SameOrigins, FileReader.SameManifests, RangeIntact,
        BuiltFrom, AudioPart, Shown;
      start, d := ChunkManifest(id, 0, 0, []), [];
      var audioLen := layout.audioEnd - layout.audioStart;
      var virtualSize := |header| + audioLen;
      if !NeedsAudio(header, layout, offset, size) { ShowsWithoutAudio(header, d, layout, offset, size); }
      if offset >= virtualSize { return Ok([]), start, d; }
      var virtualEnd := Min(offset + size, virtualSize);
      var result: Bytes := [];
      if offset < |header| {
        var end := Min(virtualEnd, |header|);
        result := result + header[offset..end];
      }
      assert result == HeaderPart(header, offset, virtualEnd);
      hide HeaderPart;
      if virtualEnd > |header| {
        var audioStart := Max(|header|, offset);
        var audioOffset := layout.audioStart + (audioStart - |header|);
        var needed := (virtualEnd - audioStart) % U32;
        var got;
        got, start, d := casReader.Read(id, audioOffset, needed, calm);
        if got.Err? { return Err(CasFailed(got.error)), start, d; }
        AudioAsked(header, d, start.totalSize, layout, offset, virtualEnd);
        ShowsWithAudio(header, d[..Min(start.totalSize, |d|)], layout, offset, size);
        result := result + got.value;
      }
      return Ok(result), start, d;
    }

    /** The file has a header, and its origin still has all of d to heal it with. */
    ghost predicate Ready(id: FileId, d: Bytes, total: nat)
      reads this, casReader, casReader.store, casReader.Fetchers()
    {
      && casReader.Valid() && casReader.Healable(id) && casReader.Settled(id)
      && casReader.fetcher.Source(id) == Ok(d)
      && id in casReader.fetcher.fileMeta && casReader.fetcher.fileMeta[id].size == total
      && id in layouts && Header(id).Ok? && layouts[id].layout.audioStart <= layouts[id].layout.audioEnd
    }

    /** What the file shows when its origin has d and its metadata claims total bytes. */
    ghost function ShownFile(id: FileId, d: Bytes, total: nat): Bytes
      reads this
    {
      if id !in layouts || Header(id).Err? then []
      else Virtual(Header(id).value, d[..Min(total, |d|)], layouts[id].layout)
    }

    /** One window, in peace. */
    method ReadInPeace(id: FileId, offset: nat, size: nat, ghost d: Bytes, ghost total: nat)
      returns (r: Result<Bytes, OverlayError>)
      requires Ready(id, d, total) && size < U32
      modifies casReader, casReader.store, casReader.Fetchers()
      ensures Ready(id, d, total) && ShownFile(id, d, total) == old(ShownFile(id, d, total))
      ensures r == Ok(Between(ShownFile(id, d, total), offset, offset + size))
    {
      ghost var start, e;
      r, start, e := Read(id, offset, size, true);
      ghost var header, layout := Header(id).value, layouts[id].layout;
      ShownHere(r.value, header, e[..Min(start.totalSize, |e|)], d[..Min(total, |d|)], layout, offset, size);
      hide ShowsWindow, Virtual, NeedsAudio, Between;
    }

    /** A file read from front to back in windows of any sizes: in peace, from an
        origin that still has it, the windows join to the virtual file, without gap
        or overlap, whatever chunks were missing or damaged. */
    method ReadThrough(id: FileId, sizes: seq<nat>, ghost d: Bytes, ghost total: nat)
      returns (r: Result<Bytes, OverlayError>)
      requires Ready(id, d, total)
      requires forall s :: s in sizes ==> s < U32
      modifies casReader, casReader.store, casReader.Fetchers()
      ensures Ready(id, d, total)
      ensures r == Ok(Window(ShownFile(id, d, total), 0, Sum(sizes)))
      ensures Sum(sizes) >= |ShownFile(id, d, total)| ==> r == Ok(ShownFile(id, d, total))
    {
      hide Between, Ready, ShownFile, Sum;
      ghost var shown := ShownFile(id, d, total);
      var result: Bytes := [];
      var offset := 0;
      BetweenEmpty(shown, 0);
      BetweenWhole(shown, Sum(sizes));
      SumNone(sizes);
      for i := 0 to |sizes|
        invariant Ready(id, d, total) && ShownFile(id, d, total) == shown
        invariant offset == Sum(sizes[..i]) && result == Between(shown, 0, offset)
      {
        assert sizes[i] in sizes;
        SumTake(sizes, i);
        BetweenJoin(shown, 0, offset, offset + sizes[i]);
        var got := ReadInPeace(id, offset, sizes[i], d, total);
        if got.Err? { return got; }
        result := result + got.value;
        offset := offset + sizes[i];
      }
      return Ok(result);
    }
  }

  lemma ShownHere(r: Bytes, header: Bytes, content: Bytes, content': Bytes, layout: FormatLayout, offset: nat,
          size: nat)
    requires layout.audioStart <= layout.audioEnd && ShowsWindow(r, header, content, layout, offset, size)
    requires NeedsAudio(header, layout, offset, size) ==> content' == content
    ensures r == Between(Virtual(header, content', layout), offset, offset + size)
  {
    assert r == Window(Virtual(header, content', layout), offset, size);
  }

  lemma BetweenWhole(d: Bytes, n: nat)
    ensures n >= |d| ==> Between(d, 0, n) == d
  {
  }

  lemma SumNone(sizes: seq<nat>)
    ensures Sum(sizes[..0]) == 0 && sizes[..|sizes|] == sizes
  {
  }

  lemma {:induction false} SumTake(sizes: seq<nat>, i: nat)
    requires i < |sizes|
    ensures Sum(sizes[..i + 1]) == Sum(sizes[..i]) + sizes[i]
    decreases i
  {
    if i == 0 {
      assert sizes[..1][1..] == [] && sizes[..0] == [];
    } else {
      SumTake(sizes[1..], i - 1);
      assert sizes[..i + 1][1..] == sizes[1..][..i] && sizes[..i][1..] == sizes[1..][..i - 1];
    }
  }

  /** What a player makes of the virtual file: with the layout that analysis gave the
      content, it is a FLAC file whose audio begins behind the new header, with the
      STREAMINFO and the audio of the content, and its comments are the tag's. */
  lemma VirtualFileIsFlac(content: Bytes, tag: Tag) returns (bs: seq<Block>)
    requires AnalyzeSpec(content, |content|).Ok? && |Serialize(tag)| < U24
    ensures var layout := AnalyzeSpec(content, |content|).value;
      && SynthesizeSpec(tag, layout).Ok?
      && var header := SynthesizeSpec(tag, layout).value;
         var shown := Virtual(header, content, layout);
         var again := AnalyzeSpec(shown, |shown|);
         && again == Ok(FormatLayout(|header|, |shown|, layout.formatData))
         && AudioOf(shown, again.value) == AudioOf(content, layout)
         && (Writable(tag) ==> FlacFile(shown, bs) && Carries(bs, layout.formatData.value, tag))
  {
    bs := OverlayPreservesAudio(content, tag);
    hide FlacFile, Carries, Writable, AnalyzeSpec, SynthesizeSpec, Serialize, AudioOf;
  }

  /** The virtual size as the overlay computes it, in unsigned 64-bit arithmetic. */
  function VirtualSize64(header: Bytes, layout: FormatLayout): nat {
    WrapAdd(|header|, WrapSub(layout.audioEnd, layout.audioStart))
  }

  /** It is the size of header and audio together exactly when the audio does not
      begin behind the end of the file. */
  lemma VirtualSizeExact(header: Bytes, layout: FormatLayout)
    requires |header| <= MAX_SLICE && layout.audioStart <= MAX_SLICE && layout.audioEnd <= MAX_SLICE
    ensures var audio := if layout.audioStart <= layout.audioEnd then layout.audioEnd - layout.audioStart else 0;
      VirtualSize64(header, layout) == |header| + audio <==> layout.audioStart <= layout.audioEnd
  {
    var back := layout.audioEnd - layout.audioStart;
    assert back < 0 ==> WrapSub(layout.audioEnd, layout.audioStart) == U64 + back;
  }
}
