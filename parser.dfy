// `PSDParser`: the document object the parser fills in, the decoders that
// advance a cursor through their bytes, and `parse`, which reads the header,
// then the colour-mode section and the image-resources section, each behind
// a four-byte big-endian length.
module PsdParser {
  import opened Types
  import opened Conversions
  import opened Cursor
  import opened Validators
  import opened HeaderDecoding
  import opened ResourceDecoding

  /** The value of a fully parsed document. */
  datatype Document = Document(header: Header, imageResourceBlocks: seq<ResourceBlock>)

  /** `_PSD`. Its fields start unset and the decoders fill them in. In the source
      the block list is a class attribute, one list shared by every document;
      here each document owns its own list. */
  class Psd {
    var version: Option<Version>
    var colorDepth: Option<Depth>
    var colorMode: Option<ColorMode>
    var size: Option<Size>
    var channelCount: nat
    var imageResourceBlocks: seq<ResourceBlock>

    constructor ()
      ensures version == None && colorDepth == None && colorMode == None && size == None
      ensures channelCount == 0 && imageResourceBlocks == []
    {
      version, colorDepth, colorMode, size := None, None, None, None;
      channelCount := 0;
      imageResourceBlocks := [];
    }

    predicate HasHeader()
      reads this
    {
      version.Some? && colorDepth.Some? && colorMode.Some? && size.Some?
    }

    function HeaderValue(): Header
      reads this
      requires HasHeader()
    {
      Header(version.value, colorDepth.value, colorMode.value, size.value, channelCount)
    }

    function Snapshot(): Document
      reads this
      requires HasHeader()
    {
      Document(HeaderValue(), imageResourceBlocks)
    }
  }

  /** `_read_header`: reads the eight fields through a cursor that only moves
      forward, converts each integer field as it goes, checks signature, version,
      reserved bytes and channel count, then stores the validated values. */
  method ReadHeader(resultFile: Psd, bytes: seq<Byte>) returns (o: Outcome)
    modifies resultFile`version, resultFile`colorDepth, resultFile`colorMode, resultFile`size,
      resultFile`channelCount
    ensures o.Pass? <==> DecodeHeader(bytes).Ok?
    ensures o.Fail? ==> DecodeHeader(bytes) == Err(o.error)
    ensures o.Pass? ==> resultFile.HasHeader() && resultFile.HeaderValue() == DecodeHeader(bytes).value
  {
    var cur := new ByteCursor(bytes);
    var signatureField := cur.ReadBytes(SignatureWidth);
    assert signatureField == Window(bytes, 0, SignatureWidth);
    var headerSignature := Chars(signatureField);
    var versionField := cur.ReadBytes(VersionWidth);
    assert versionField == Window(bytes, 4, VersionWidth);
    var headerVersion := DigitConcat(versionField);
    if headerVersion.Err? { return Fail(headerVersion.error); }
    var reservedField := cur.ReadBytes(ReservedWidth);
    assert reservedField == Window(bytes, 6, ReservedWidth);
    var headerReservedZero := Render(reservedField);
    var channelField := cur.ReadBytes(ChannelCountWidth);
    assert channelField == Window(bytes, 12, ChannelCountWidth);
    var headerChannelCount := DigitConcat(channelField);
    if headerChannelCount.Err? { return Fail(headerChannelCount.error); }
    var heightField := cur.ReadBytes(HeightWidth);
    assert heightField == Window(bytes, 14, HeightWidth);
    var headerImgHeight := DigitConcat(heightField);
    if headerImgHeight.Err? { return Fail(headerImgHeight.error); }
    var widthField := cur.ReadBytes(WidthWidth);
    assert widthField == Window(bytes, 18, WidthWidth);
    var headerImgWidth := DigitConcat(widthField);
    if headerImgWidth.Err? { return Fail(headerImgWidth.error); }
    var depthField := cur.ReadBytes(DepthWidth);
    assert depthField == Window(bytes, 22, DepthWidth);
    var headerDepth := DigitConcat(depthField);
    if headerDepth.Err? { return Fail(headerDepth.error); }
    var colorModeField := cur.ReadBytes(ColorModeWidth);
    assert colorModeField == Window(bytes, 24, ColorModeWidth);
    var headerColorMode := DigitConcat(colorModeField);
    if headerColorMode.Err? { return Fail(headerColorMode.error); }
    FieldWidthsCoverHeader();
    assert cur.cursor == HeaderBytes;
    o := StoreHeader(resultFile, headerSignature, headerVersion.value, headerReservedZero,
      headerChannelCount.value, headerImgHeight.value, headerImgWidth.value, headerDepth.value,
      headerColorMode.value);
  }

  /** The second half of `_read_header`: the checks on the converted fields, in
      source order, then the validators, each value stored as soon as it is
      built. */
  method StoreHeader(resultFile: Psd, signature: string, ver: nat, reserved: string,
                     channels: nat, height: nat, width: nat, depth: nat, mode: nat)
    returns (o: Outcome)
    modifies resultFile`version, resultFile`colorDepth, resultFile`colorMode, resultFile`size,
      resultFile`channelCount
    ensures var h := CheckHeader(signature, ver, reserved, channels, height, width, depth, mode);
      (o.Pass? <==> h.Ok?) &&
      (o.Fail? ==> h == Err(o.error)) &&
      (o.Pass? ==> resultFile.HasHeader() && resultFile.HeaderValue() == h.value)
  {
    if signature != "8BPS" { return Fail(WrongSignature(signature)); }
    if !(ver == 0 || ver == 1) { return Fail(WrongVersion(ver)); }
    if reserved != "000000" { return Fail(InvalidReservedZeros(reserved)); }
    if !(1 <= channels < 57) { return Fail(ChannelCountOutOfBound(channels)); }

    var version := NewVersion(ver);
    if version.Err? { return Fail(version.error); }
    resultFile.version := Some(version.value);
    var colorDepth := NewDepth(depth);
    if colorDepth.Err? { return Fail(colorDepth.error); }
    resultFile.colorDepth := Some(colorDepth.value);
    var colorMode := NewColorMode(mode);
    if colorMode.Err? { return Fail(colorMode.error); }
    resultFile.colorMode := Some(colorMode.value);
    var size := NewSize(width, height, ver == 2);
    if size.Err? { return Fail(size.error); }
    resultFile.size := Some(size.value);
    resultFile.channelCount := channels;
    o := Pass;
  }

  /** The name loop of `_read_imageresource`: reads two-byte units, collecting
      each rendered unit, until a unit renders as "00". When the data runs out
      first, every later unit renders as "" and the source loops forever; here
      that is reported as `terminated == false`. */
  method ReadNameUnits(cur: ByteCursor) returns (namechars: seq<string>, name: string, terminated: bool)
    modifies cur
    ensures terminated <==> NameLength(cur.buffer, old(cur.cursor)).Some?
    ensures terminated ==>
      var n := NameLength(cur.buffer, old(cur.cursor)).value;
      name == "00" && namechars == NameChars(cur.buffer, old(cur.cursor), n) &&
      cur.cursor == old(cur.cursor) + 2 * n + 2
  {
    ghost var c := cur.cursor;
    ghost var d := cur.buffer;
    ghost var n: nat := 0;
    namechars := [];
    var unit := cur.ReadBytes(NameUnitWidth);
    name := Render(unit);
    while name != "00"
      invariant cur.cursor == c + 2 * n + 2 && 2 * n <= |d|
      invariant unit == Window(d, c + 2 * n, NameUnitWidth) && name == Render(unit)
      invariant NoTerminatorBefore(d, c, n)
      invariant namechars == NameChars(d, c, n)
      decreases |d| - 2 * n
    {
      if |unit| < NameUnitWidth {
        // Past the end: no later unit can terminate the name.
        NoTerminator(d, c, n);
        return namechars, name, false;
      }
      UnitIsTerminator(d, c, n);
      ExtendNoTerminator(d, c, n);
      NameCharsStep(d, c, n);
      namechars := namechars + [name];
      n := n + 1;
      assert cur.cursor == c + 2 * n;
      unit := cur.ReadBytes(NameUnitWidth);
      name := Render(unit);
    }
    UnitIsTerminator(d, c, n);
    FirstTerminator(d, c, n);
    terminated := true;
  }

  /** `''.join(parts)`. */
  function Join(parts: seq<string>): string {
    if parts == [] then "" else Join(parts[..|parts| - 1]) + parts[|parts| - 1]
  }

  /** `_read_imageresource`: decodes one block and appends it to the document's
      list; a failure leaves the list as it was. */
  method ReadImageResource(resultFile: Psd, bytes: seq<Byte>) returns (o: Outcome)
    modifies resultFile`imageResourceBlocks
    ensures o.Pass? <==> DecodeImageResource(bytes).Ok?
    ensures o.Fail? ==> DecodeImageResource(bytes) == Err(o.error)
    ensures o.Fail? ==> resultFile.imageResourceBlocks == old(resultFile.imageResourceBlocks)
    ensures o.Pass? ==>
      resultFile.imageResourceBlocks == old(resultFile.imageResourceBlocks) + [DecodeImageResource(bytes).value]
  {
    var block := ReadBlock(bytes);
    if block.Err? { return Fail(block.error); }
    resultFile.imageResourceBlocks := resultFile.imageResourceBlocks + [block.value];
    o := Pass;
  }

  /** The reading and validation part of `_read_imageresource`, through its
      `read_bytes` cursor. The signature is checked only after everything has
      been read. */
  method ReadBlock(bytes: seq<Byte>) returns (r: Result<ResourceBlock>)
    ensures r == DecodeImageResource(bytes)
  {
    var cur := new ByteCursor(bytes);
    var signature, uid := ReadBlockId(cur);
    var namechars, name, terminated := ReadNameUnits(cur);
    if !terminated {
      UnterminatedName(bytes);
      return Err(NameNeverTerminated);
    }
    ghost var n := NameLength(bytes, NameStart).value;
    UnitIsTerminator(bytes, NameStart, n);
    // Built from the collected units, but the block below is given `name`,
    // which by now always holds the terminator.
    var imgResBlockName := Join(namechars);
    var resources := ReadSizedData(cur);
    if resources.Err? {
      SizeFieldFails(bytes, n);
      return Err(resources.error);
    }
    if signature != "8BIM" {
      SignatureFails(bytes, n, signature);
      return Err(InvalidBlockSignature(signature));
    }
    BlockFromReads(bytes, n, signature, uid, name, resources.value);
    r := Ok(ResourceBlock(uid, name, resources.value));
  }

  /** The signature and the uid, the first six bytes of a block. */
  method ReadBlockId(cur: ByteCursor) returns (signature: string, uid: nat)
    modifies cur
    ensures cur.cursor == old(cur.cursor) + BlockSignatureWidth + UidWidth
    ensures signature == Chars(Window(cur.buffer, old(cur.cursor), BlockSignatureWidth))
    ensures uid == HexWeighted(Render(Window(cur.buffer, old(cur.cursor) + BlockSignatureWidth, UidWidth)))
  {
    var signatureField := cur.ReadBytes(BlockSignatureWidth);
    signature := Chars(signatureField);
    var uidField := cur.ReadBytes(UidWidth);
    uid := HexWeighted(Render(uidField));
  }

  /** `int(read_bytes(4))` and `read_bytes(res_size)`: the size field and the
      data it announces, from the cursor. */
  method ReadSizedData(cur: ByteCursor) returns (resources: Result<string>)
    modifies cur
    ensures resources == SizedDataAt(cur.buffer, old(cur.cursor))
    ensures resources.Ok? ==>
      cur.cursor == old(cur.cursor) + ResourceDataSizeWidth
        + DigitFold(Window(cur.buffer, old(cur.cursor), ResourceDataSizeWidth))
    ensures resources.Err? ==> cur.cursor == old(cur.cursor) + ResourceDataSizeWidth
  {
    var sizeField := cur.ReadBytes(ResourceDataSizeWidth);
    var resSize := DigitConcat(sizeField);
    if resSize.Err? { return Err(resSize.error); }
    var resourceField := cur.ReadBytes(resSize.value);
    resources := Ok(Render(resourceField));
  }

  // ---------------------------------------------------------------------------
  // The file as `parse` reads it

  /** What `parse` takes from the file, in order: the header bytes, each
      section's length and the bytes read for it (none when the length is
      zero), and where reading stopped. */
  datatype Framing = Framing(
    header: seq<Byte>,
    colorModeSize: nat, colorModeData: seq<Byte>,
    resourceSize: nat, resourceData: seq<Byte>,
    end: nat)

  /** A section read at position `p`: its length, the bytes read for it, and
      the position after them. */
  datatype Section = Section(size: nat, data: seq<Byte>, end: nat)

  function SectionAt(f: seq<Byte>, p: nat): (s: Section)
    requires p <= |f|
    ensures p <= s.end <= |f|
    ensures s.size == 0 ==> s.data == [] && s.end == (if p + 4 <= |f| then p + 4 else |f|)
  {
    var lengthField := Window(f, p, 4);
    var size := BigEndian(lengthField);
    var data := if size != 0 then Window(f, p + |lengthField|, size) else [];
    Section(size, data, p + |lengthField| + |data|)
  }

  function Frame(f: seq<Byte>): (fr: Framing)
    ensures fr.end <= |f|
  {
    var header := Window(f, 0, HeaderBytes);
    var colorMode := SectionAt(f, |header|);
    var resources := SectionAt(f, colorMode.end);
    Framing(header, colorMode.size, colorMode.data, resources.size, resources.data, resources.end)
  }

  /** What `parse` returns for a file's bytes: the document, or the first error
      raised. At most one resource block is ever decoded, and the header stored
      is the one decoded from the first 26 bytes. */
  function ParseSpec(f: seq<Byte>): (r: Result<Document>)
    ensures r.Ok? ==> |r.value.imageResourceBlocks| <= 1
    ensures r.Ok? ==> DecodeHeader(Window(f, 0, HeaderBytes)) == Ok(r.value.header)
    ensures DecodeHeader(Window(f, 0, HeaderBytes)).Err? ==> r == Err(DecodeHeader(Window(f, 0, HeaderBytes)).error)
  {
    var fr := Frame(f);
    var header :- DecodeHeader(fr.header);
    if fr.colorModeSize != 0 && ReadColorMode(fr.colorModeData).Fail? then
      Err(ReadColorMode(fr.colorModeData).error)
    else if fr.resourceSize == 0 then Ok(Document(header, []))
    else
      var block :- DecodeImageResource(fr.resourceData);
      Ok(Document(header, [block]))
  }

  /** One section of `parse`: a four-byte big-endian length, then, unless the
      length is zero, that many bytes (fewer at the end of the file). */
  method ReadSection(ff: FileStream) returns (size: nat, data: seq<Byte>)
    requires ff.Valid()
    modifies ff
    ensures ff.Valid()
    ensures SectionAt(ff.data, old(ff.pos)) == Section(size, data, ff.pos)
  {
    var lengthField := ff.Read(4);
    size := BigEndian(lengthField);
    data := [];
    if size != 0 {
      data := ff.Read(size);
    }
  }

  /** `parse`, on an already opened file: header, colour-mode length and data,
      image-resources length and data. A zero length skips its section. */
  method Parse(ff: FileStream) returns (r: Result<Psd>)
    requires ff.Valid() && ff.pos == 0
    modifies ff
    ensures r.Ok? <==> ParseSpec(ff.data).Ok?
    ensures r.Err? ==> ParseSpec(ff.data) == Err(r.error)
    ensures r.Ok? ==>
      fresh(r.value) && r.value.HasHeader() && r.value.Snapshot() == ParseSpec(ff.data).value &&
      ff.pos == Frame(ff.data).end
  {
    ghost var fr := Frame(ff.data);
    var resultFile := new Psd();
    var headerBytes := ff.Read(HeaderBytes);
    assert headerBytes == fr.header;
    var o := ReadHeader(resultFile, headerBytes);
    if o.Fail? { return Err(o.error); }

    assert ff.pos == |fr.header|;
    var colormodeSize, colorModeData := ReadSection(ff);
    if colormodeSize != 0 {
      var c := ReadColorMode(colorModeData);
      if c.Fail? { return Err(c.error); }
    }

    var imgresSize, imgResData := ReadSection(ff);
    if imgresSize != 0 {
      var res := ReadImageResource(resultFile, imgResData);
      if res.Fail? { return Err(res.error); }
    }
    r := Ok(resultFile);
  }

  // ---------------------------------------------------------------------------
  // Files laid out as the format describes

  /** A file as the format lays it out: the header, then each section behind its
      four-byte big-endian length. */
  function Layout(header: seq<Byte>, colorModeData: seq<Byte>, resourceData: seq<Byte>): seq<Byte>
    requires |colorModeData| < Pow(256, 4) && |resourceData| < Pow(256, 4)
  {
    header + EncodeBigEndian(|colorModeData|, 4) + colorModeData
      + EncodeBigEndian(|resourceData|, 4) + resourceData
  }

  /** A window over the middle part of a concatenation is that part. */
  lemma WindowOfMiddle(a: seq<Byte>, b: seq<Byte>, c: seq<Byte>)
    ensures Window(a + b + c, |a|, |b|) == b
  {
    assert (a + b + c)[|a|..|a| + |b|] == b;
  }

  lemma SectionFromFields(f: seq<Byte>, p: nat, data: seq<Byte>)
    requires p + 4 <= |f| && BigEndian(Window(f, p, 4)) == |data|
    requires Window(f, p + 4, |data|) == data
    ensures SectionAt(f, p) == Section(|data|, data, p + 4 + |data|)
  {
  }

  /** A section whose length field holds the length of the bytes after it is
      read back whole. */
  lemma SectionOfFields(prefix: seq<Byte>, lengthField: seq<Byte>, data: seq<Byte>, rest: seq<Byte>)
    requires |lengthField| == 4 && BigEndian(lengthField) == |data|
    ensures SectionAt(prefix + lengthField + data + rest, |prefix|) == Section(|data|, data, |prefix| + 4 + |data|)
  {
    var f := prefix + lengthField + data + rest;
    assert Window(f, |prefix|, 4) == lengthField by {
      assert f == prefix + lengthField + (data + rest);
      WindowOfMiddle(prefix, lengthField, data + rest);
    }
    assert Window(f, |prefix| + 4, |data|) == data by {
      assert f == (prefix + lengthField) + data + rest;
      WindowOfMiddle(prefix + lengthField, data, rest);
    }
    SectionFromFields(f, |prefix|, data);
  }

  /** A section laid out after a prefix is read back whole: the length, the
      bytes, and the position after them. */
  lemma SectionOfLayout(prefix: seq<Byte>, data: seq<Byte>, rest: seq<Byte>)
    requires |data| < Pow(256, 4)
    ensures SectionAt(prefix + EncodeBigEndian(|data|, 4) + data + rest, |prefix|)
      == Section(|data|, data, |prefix| + 4 + |data|)
  {
    BigEndianRoundTrip(|data|, 4);
    SectionOfFields(prefix, EncodeBigEndian(|data|, 4), data, rest);
  }

  /** `parse` reads back exactly the header and the two sections of a laid-out
      file, and stops after them: whatever follows is never read. */
  lemma FrameOfLayout(header: seq<Byte>, colorModeData: seq<Byte>, resourceData: seq<Byte>, rest: seq<Byte>)
    requires |header| == HeaderBytes
    requires |colorModeData| < Pow(256, 4) && |resourceData| < Pow(256, 4)
    ensures Frame(Layout(header, colorModeData, resourceData) + rest)
      == Framing(header, |colorModeData|, colorModeData, |resourceData|, resourceData,
                 HeaderBytes + 8 + |colorModeData| + |resourceData|)
  {
    var cmLength := EncodeBigEndian(|colorModeData|, 4);
    var irLength := EncodeBigEndian(|resourceData|, 4);
    var f := Layout(header, colorModeData, resourceData) + rest;
    assert f == header + cmLength + colorModeData + (irLength + resourceData + rest);
    assert Window(f, 0, HeaderBytes) == header by {
      assert f[..HeaderBytes] == header;
    }
    SectionOfLayout(header, colorModeData, irLength + resourceData + rest);
    assert f == (header + cmLength + colorModeData) + irLength + resourceData + rest;
    SectionOfLayout(header + cmLength + colorModeData, resourceData, rest);
  }

  /** A file whose two section lengths are zero parses to its header and no
      blocks, and reading stops right after the two lengths. */
  lemma EmptySections(header: seq<Byte>, rest: seq<Byte>)
    requires |header| == HeaderBytes && DecodeHeader(header).Ok?
    ensures ParseSpec(Layout(header, [], []) + rest) == Ok(Document(DecodeHeader(header).value, []))
    ensures Frame(Layout(header, [], []) + rest).end == HeaderBytes + 8
  {
    FrameOfLayout(header, [], [], rest);
  }

  /** Colour-mode data is refused: any non-empty colour-mode section (indexed or
      duotone data) fails the parse, whatever the resources hold. */
  lemma ColorModeDataRejected(header: seq<Byte>, colorModeData: seq<Byte>, resourceData: seq<Byte>,
                              rest: seq<Byte>)
    requires |header| == HeaderBytes && DecodeHeader(header).Ok?
    requires 0 < |colorModeData| < Pow(256, 4) && |resourceData| < Pow(256, 4)
    ensures ParseSpec(Layout(header, colorModeData, resourceData) + rest) == Err(ColorModeDataUnsupported)
  {
    FrameOfLayout(header, colorModeData, resourceData, rest);
  }

  /** A non-empty resources section gives the document exactly the block that
      section decodes to, or fails with that section's error. */
  lemma ResourcesDecoded(header: seq<Byte>, resourceData: seq<Byte>, rest: seq<Byte>)
    requires |header| == HeaderBytes && DecodeHeader(header).Ok?
    requires 0 < |resourceData| < Pow(256, 4)
    ensures var r := ParseSpec(Layout(header, [], resourceData) + rest);
      match DecodeImageResource(resourceData)
      case Ok(block) => r == Ok(Document(DecodeHeader(header).value, [block]))
      case Err(e) => r == Err(e)
  {
    FrameOfLayout(header, [], resourceData, rest);
  }

  /** A colour-mode length with nothing after it is not an error: the read comes
      back empty, which counts as no colour-mode data, and the resources length
      then reads as zero. */
  lemma MissingColorModeDataAccepted(header: seq<Byte>, lengthField: seq<Byte>)
    requires |header| == HeaderBytes && DecodeHeader(header).Ok?
    requires |lengthField| == 4
    ensures ParseSpec(header + lengthField) == Ok(Document(DecodeHeader(header).value, []))
  {
    var f := header + lengthField;
    assert Window(f, 0, HeaderBytes) == header by { assert f[..HeaderBytes] == header; }
    assert Window(f, HeaderBytes, 4) == lengthField by { assert f[HeaderBytes..] == lengthField; }
    var cm := SectionAt(f, HeaderBytes);
    assert cm.data == [] && cm.end == |f|;
    assert SectionAt(f, cm.end).size == 0;
  }
}
