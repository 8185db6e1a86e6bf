// The File Header Section: 26 bytes read field by field from the front of the
// file, then validated. Every integer field goes through DigitConcat (the
// decimal renderings of its bytes joined and passed to `int`), not through a
// binary reading.
module HeaderDecoding {
  import opened Types
  import opened Conversions
  import opened Validators

  // Field widths, in the order they are read.
  const SignatureWidth: nat := 4
  const VersionWidth: nat := 2
  const ReservedWidth: nat := 6
  const ChannelCountWidth: nat := 2
  const HeightWidth: nat := 4
  const WidthWidth: nat := 4
  const DepthWidth: nat := 2
  const ColorModeWidth: nat := 2

  /** The number of bytes the parser hands to the header decoder. */
  const HeaderBytes: nat := 26

  /** The eight fields, read back to back, cover exactly the bytes the parser
      hands over. */
  lemma FieldWidthsCoverHeader()
    ensures SignatureWidth + VersionWidth + ReservedWidth + ChannelCountWidth
      + HeightWidth + WidthWidth + DepthWidth + ColorModeWidth == HeaderBytes
  {
  }

  datatype Header = Header(
    version: Version,
    colorDepth: Depth,
    colorMode: ColorMode,
    size: Size,
    channelCount: nat)

  /** What `_read_header` produces from the bytes it is given: every field is read
      and converted first (a conversion of an empty field raises), then the checks
      run in source order, then the validators build the stored values. */
  function DecodeHeader(b: seq<Byte>): Result<Header> {
    var signature := Chars(Window(b, 0, SignatureWidth));
    var version :- DigitConcat(Window(b, 4, VersionWidth));
    var reserved := Render(Window(b, 6, ReservedWidth));
    var channels :- DigitConcat(Window(b, 12, ChannelCountWidth));
    var height :- DigitConcat(Window(b, 14, HeightWidth));
    var width :- DigitConcat(Window(b, 18, WidthWidth));
    var depth :- DigitConcat(Window(b, 22, DepthWidth));
    var mode :- DigitConcat(Window(b, 24, ColorModeWidth));
    CheckHeader(signature, version, reserved, channels, height, width, depth, mode)
  }

  /** The checks `_read_header` runs once every field is converted, in source
      order, and the validators that build the stored values. */
  function CheckHeader(signature: string, version: nat, reserved: string, channels: nat,
                       height: nat, width: nat, depth: nat, mode: nat): Result<Header> {
    if signature != "8BPS" then Err(WrongSignature(signature))
    else if !(version == 0 || version == 1) then Err(WrongVersion(version))
    else if reserved != "000000" then Err(InvalidReservedZeros(reserved))
    else if !(1 <= channels < 57) then Err(ChannelCountOutOfBound(channels))
    else
      var v :- NewVersion(version);
      var d :- NewDepth(depth);
      var m :- NewColorMode(mode);
      var s :- NewSize(width, height, version == 2);
      Ok(Header(v, d, m, s, channels))
  }

  /** A header cut short before its colour-mode field leaves some field empty,
      and converting the empty text raises before any check runs. */
  lemma ShortHeaderFails(b: seq<Byte>)
    requires |b| < 25
    ensures DecodeHeader(b) == Err(InvalidLiteral(""))
  {
    assert Window(b, 24, ColorModeWidth) == [];
  }

  /** A header with every field present decodes through the checks on its
      fields, each integer field digit-concatenated. */
  lemma DecodeHeaderFields(b: seq<Byte>)
    requires |b| >= 25
    ensures DecodeHeader(b) == CheckHeader(Chars(b[..4]), DigitFold(b[4..6]), Render(b[6..12]),
      DigitFold(b[12..14]), DigitFold(b[14..18]), DigitFold(b[18..22]), DigitFold(b[22..24]),
      DigitFold(Window(b, 24, 2)))
  {
    assert Window(b, 0, SignatureWidth) == b[..4];
    assert Window(b, 4, VersionWidth) == b[4..6];
    assert Window(b, 6, ReservedWidth) == b[6..12];
    assert Window(b, 12, ChannelCountWidth) == b[12..14];
    assert Window(b, 14, HeightWidth) == b[14..18];
    assert Window(b, 18, WidthWidth) == b[18..22];
    assert Window(b, 22, DepthWidth) == b[22..24];
  }

  /** The checks and validators accept exactly a version of 1 (the only value
      both version checks allow), the "8BPS" signature, six zero characters, and
      in-range channel count, sizes, depth and colour mode. */
  lemma CheckHeaderAccepted(signature: string, version: nat, reserved: string, channels: nat,
                            height: nat, width: nat, depth: nat, mode: nat)
    ensures var r := CheckHeader(signature, version, reserved, channels, height, width, depth, mode);
      (r.Ok? <==>
        signature == "8BPS" && version == 1 && reserved == "000000" && 1 <= channels <= 56 &&
        1 <= height <= 30000 && 1 <= width <= 30000 && depth in ValidDepths && mode in ValidColorModes) &&
      (r.Ok? ==> r.value == Header(Version(false), Depth(depth), ColorMode(mode), Size(width, height), channels))
  {
  }

  /** Acceptance, field by field, in terms of the bytes: the signature spells
      "8BPS", the version bytes are exactly 00 01, the reserved bytes are six
      zeros, and the digit-concatenated channel count, sizes, depth and colour
      mode lie in their sets and ranges. On success the stored values are the
      decoded ones, width and height are not swapped, and the document is never
      a PSB. */
  lemma {:induction false} HeaderAccepted(b: seq<Byte>)
    ensures DecodeHeader(b).Ok? <==>
      |b| >= 25 &&
      Chars(b[..4]) == "8BPS" &&
      b[4..6] == [0, 1] &&
      b[6..12] == ZeroBytes(6) &&
      1 <= DigitFold(b[12..14]) <= 56 &&
      1 <= DigitFold(b[14..18]) <= 30000 &&
      1 <= DigitFold(b[18..22]) <= 30000 &&
      DigitFold(b[22..24]) in ValidDepths &&
      DigitFold(Window(b, 24, 2)) in ValidColorModes
    ensures DecodeHeader(b).Ok? ==>
      DecodeHeader(b).value == Header(
        Version(false),
        Depth(DigitFold(b[22..24])),
        ColorMode(DigitFold(Window(b, 24, 2))),
        Size(DigitFold(b[18..22]), DigitFold(b[14..18])),
        DigitFold(b[12..14]))
  {
    if |b| < 25 {
      ShortHeaderFails(b);
    } else {
      DecodeHeaderFields(b);
      CheckHeaderAccepted(Chars(b[..4]), DigitFold(b[4..6]), Render(b[6..12]),
        DigitFold(b[12..14]), DigitFold(b[14..18]), DigitFold(b[18..22]), DigitFold(b[22..24]),
        DigitFold(Window(b, 24, 2)));
      FixedFieldsAccepted(b);
    }
  }

  /** The version field decodes to 1 exactly when its bytes are 00 01, and the
      reserved field renders as six zero characters exactly when its bytes are
      six zeros. */
  lemma FixedFieldsAccepted(b: seq<Byte>)
    requires |b| >= 25
    ensures DigitFold(b[4..6]) == 1 <==> b[4..6] == [0, 1]
    ensures Render(b[6..12]) == "000000" <==> b[6..12] == ZeroBytes(6)
  {
    assert b[4..6] == [b[4], b[5]];
    TwoByteFieldIsOne(b[4], b[5]);
    RenderIsZeros(b[6..12], 6);
    assert Zeros(6) == "000000";
  }

  /** The signature is the first check: with every field present, a wrong
      signature is reported whatever the other fields hold. */
  lemma SignatureCheckedFirst(b: seq<Byte>)
    requires |b| >= 25 && Chars(b[..4]) != "8BPS"
    ensures DecodeHeader(b) == Err(WrongSignature(Chars(b[..4])))
  {
  }

  /** The two version checks disagree: a PSB header (version bytes 00 02) fails
      the first one, so the large-document limits are never used. */
  lemma PsbVersionRejected(b: seq<Byte>)
    requires |b| >= 25 && Chars(b[..4]) == "8BPS" && b[4..6] == [0, 2]
    ensures DecodeHeader(b) == Err(WrongVersion(2))
  {
    var w := Window(b, 4, VersionWidth);
    assert w == [0, 2] && w[..1] == [0];
    assert DigitFold([0]) == 0 by { assert [0][..0] == []; }
    assert DigitFold(w) == 2;
  }
}
