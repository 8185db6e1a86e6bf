// The Color Mode Data and Image Resources sections, as the decoders see the
// payload the parser hands them: the colour-mode stub, and the decoding of a
// single "8BIM" image resource block (signature, uid, a name of two-byte
// units ending at a zero unit, a data size and the data).
module ResourceDecoding {
  import opened Types
  import opened Conversions

  // Field widths of a resource block, in the order they are read.
  const BlockSignatureWidth: nat := 4
  const UidWidth: nat := 2
  const NameUnitWidth: nat := 2
  const ResourceDataSizeWidth: nat := 4

  /** Where the name starts: after the signature and the uid. */
  const NameStart: nat := 6

  /** The bytes of the ASCII signature "8BIM". */
  const BlockSignatureBytes: seq<Byte> := [0x38, 0x42, 0x49, 0x4D]

  /** `_IMAGE_RESOURCE_BLOCK`. The resource data is kept as the source keeps it:
      the decimal renderings of its bytes, joined. */
  datatype ResourceBlock = ResourceBlock(uid: nat, name: string, resource: string)

  /** `_read_colormode`: palette and duotone data are not supported, so only an
      empty section passes. */
  function ReadColorMode(data: seq<Byte>): (o: Outcome)
    ensures o.Pass? <==> data == []
    ensures o.Fail? ==> o.error == ColorModeDataUnsupported
  {
    if data == [] then Pass else Fail(ColorModeDataUnsupported)
  }

  /** The i-th two-byte unit of a name that starts at c is a whole unit of two
      zero bytes. (A unit cut short by the end of the data renders as fewer than
      two characters and is never "00".) */
  predicate IsTerminatorUnit(d: seq<Byte>, c: nat, i: nat) {
    c + 2 * i + 2 <= |d| && d[c + 2 * i] == 0 && d[c + 2 * i + 1] == 0
  }

  /** None of the first n units of a name that starts at c is the terminator. */
  predicate NoTerminatorBefore(d: seq<Byte>, c: nat, n: nat) {
    forall i :: 0 <= i < n ==> !IsTerminatorUnit(d, c, i)
  }

  /** The number of units before the first terminator at or after unit i of a
      name that starts at c, if there is a terminator. */
  function TerminatorFrom(d: seq<Byte>, c: nat, i: nat): (r: Option<nat>)
    ensures r.Some? ==> i <= r.value && IsTerminatorUnit(d, c, r.value)
    ensures r.Some? ==> forall k :: i <= k < r.value ==> !IsTerminatorUnit(d, c, k)
    ensures r.None? ==> forall k :: i <= k ==> !IsTerminatorUnit(d, c, k)
    decreases |d| - (c + 2 * i)
  {
    if |d| < c + 2 * i + 2 then None
    else if IsTerminatorUnit(d, c, i) then Some(i)
    else TerminatorFrom(d, c, i + 1)
  }

  /** How many units the name starting at c has before its terminator; None when
      the data ends first. */
  function NameLength(d: seq<Byte>, c: nat): (r: Option<nat>)
    ensures r.Some? ==> IsTerminatorUnit(d, c, r.value) && NoTerminatorBefore(d, c, r.value)
    ensures r.None? ==> forall i :: !IsTerminatorUnit(d, c, i)
  {
    TerminatorFrom(d, c, 0)
  }

  /** A unit renders as "00" exactly when it is a whole unit of two zero bytes. */
  lemma UnitIsTerminator(d: seq<Byte>, c: nat, i: nat)
    ensures Render(Window(d, c + 2 * i, NameUnitWidth)) == "00" <==> IsTerminatorUnit(d, c, i)
  {
    var u := Window(d, c + 2 * i, NameUnitWidth);
    RenderIsZeros(u, 2);
    assert Zeros(2) == "00";
    if IsTerminatorUnit(d, c, i) {
      assert u == ZeroBytes(2);
    }
  }

  /** The first terminator unit is the one NameLength finds. */
  lemma FirstTerminator(d: seq<Byte>, c: nat, n: nat)
    requires IsTerminatorUnit(d, c, n) && NoTerminatorBefore(d, c, n)
    ensures NameLength(d, c) == Some(n)
  {
  }

  /** The units before a non-terminator unit, with it, hold no terminator. */
  lemma ExtendNoTerminator(d: seq<Byte>, c: nat, n: nat)
    requires NoTerminatorBefore(d, c, n) && !IsTerminatorUnit(d, c, n)
    ensures NoTerminatorBefore(d, c, n + 1)
  {
  }

  /** With no terminator among the first n units and no whole unit left after
      them, the name has no terminator. */
  lemma NoTerminator(d: seq<Byte>, c: nat, n: nat)
    requires NoTerminatorBefore(d, c, n) && |d| < c + 2 * n + 2
    ensures NameLength(d, c) == None
  {
  }

  /** `namechars`: the first n units of the name starting at c, each rendered. */
  function NameChars(d: seq<Byte>, c: nat, n: nat): seq<string> {
    if n == 0 then [] else NameChars(d, c, n - 1) + [Render(Window(d, c + 2 * (n - 1), NameUnitWidth))]
  }

  lemma NameCharsStep(d: seq<Byte>, c: nat, n: nat)
    ensures NameChars(d, c, n + 1) == NameChars(d, c, n) + [Render(Window(d, c + 2 * n, NameUnitWidth))]
  {
  }

  /** The collected units are the name's units, one per two bytes, in file order. */
  lemma {:induction false} NameCharsInOrder(d: seq<Byte>, c: nat, n: nat)
    ensures |NameChars(d, c, n)| == n
    ensures forall i :: 0 <= i < n ==> NameChars(d, c, n)[i] == Render(Window(d, c + 2 * i, 2))
  {
    if n != 0 {
      NameCharsInOrder(d, c, n - 1);
    }
  }

  /** What `_read_imageresource` produces from the section's bytes: one block,
      read in source order. The name loop never ends when no terminator is
      found; a missing size field raises; the signature is checked last. The
      block stores the terminator's rendering as its name, and the data read
      for the declared size is clamped to what is left. */
  function DecodeImageResource(d: seq<Byte>): Result<ResourceBlock> {
    match NameLength(d, NameStart)
    case None => Err(NameNeverTerminated)
    case Some(n) => DecodeAfterName(d, NameStart + 2 * n)
  }

  lemma DecodeAtName(d: seq<Byte>, n: nat)
    requires NameLength(d, NameStart) == Some(n)
    ensures DecodeImageResource(d) == DecodeAfterName(d, NameStart + 2 * n)
  {
  }

  /** The rest of `_read_imageresource` once the name loop has stopped at the
      unit at t: the size field and the data, then the signature check. */
  function DecodeAfterName(d: seq<Byte>, t: nat): Result<ResourceBlock> {
    var signature := Chars(Window(d, 0, BlockSignatureWidth));
    var uid := HexWeighted(Render(Window(d, 4, UidWidth)));
    var name := Render(Window(d, t, NameUnitWidth));
    var resources :- SizedDataAt(d, t + 2);
    if signature != "8BIM" then Err(InvalidBlockSignature(signature))
    else Ok(ResourceBlock(uid, name, resources))
  }

  lemma UnterminatedName(d: seq<Byte>)
    requires NameLength(d, NameStart).None?
    ensures DecodeImageResource(d) == Err(NameNeverTerminated)
  {
  }

  lemma SizeFieldFails(d: seq<Byte>, n: nat)
    requires NameLength(d, NameStart) == Some(n) && SizedDataAt(d, NameStart + 2 * n + 2).Err?
    ensures DecodeImageResource(d) == Err(SizedDataAt(d, NameStart + 2 * n + 2).error)
  {
    DecodeAtName(d, n);
  }

  lemma SignatureFails(d: seq<Byte>, n: nat, signature: string)
    requires NameLength(d, NameStart) == Some(n) && SizedDataAt(d, NameStart + 2 * n + 2).Ok?
    requires signature == Chars(Window(d, 0, BlockSignatureWidth)) && signature != "8BIM"
    ensures DecodeImageResource(d) == Err(InvalidBlockSignature(signature))
  {
    DecodeAtName(d, n);
  }

  /** The block decoded from the fields as they are read. */
  lemma BlockFromReads(d: seq<Byte>, n: nat, signature: string, uid: nat, name: string, resources: string)
    requires NameLength(d, NameStart) == Some(n)
    requires signature == Chars(Window(d, 0, BlockSignatureWidth)) && signature == "8BIM"
    requires uid == HexWeighted(Render(Window(d, 4, UidWidth)))
    requires name == Render(Window(d, NameStart + 2 * n, NameUnitWidth))
    requires SizedDataAt(d, NameStart + 2 * n + 2) == Ok(resources)
    ensures DecodeImageResource(d) == Ok(ResourceBlock(uid, name, resources))
  {
    DecodeAtName(d, n);
  }

  /** The resource data at p: a four-byte size field converted like the header
      fields, then the rendering of that many bytes, clamped to what is left. */
  function SizedDataAt(d: seq<Byte>, p: nat): Result<string> {
    var resSize :- DigitConcat(Window(d, p, ResourceDataSizeWidth));
    Ok(Render(Window(d, p + ResourceDataSizeWidth, resSize)))
  }

  /** Acceptance and the decoded block, for any section bytes: the block decodes
      exactly when the name is terminated, at least one byte of the size field
      follows, and the signature is "8BIM". The uid is the rendering of the two
      uid bytes read in base 16, the stored name is always "00", and the data is
      the rendering of the next `size` bytes, or of fewer if the section ends. */
  lemma {:induction false} ImageResourceAccepted(d: seq<Byte>)
    ensures DecodeImageResource(d).Ok? <==>
      NameLength(d, NameStart).Some? &&
      NameStart + 2 * NameLength(d, NameStart).value + 2 < |d| &&
      |d| >= 4 && Chars(d[..4]) == "8BIM"
    ensures DecodeImageResource(d).Ok? ==>
      var t := NameStart + 2 * NameLength(d, NameStart).value;
      var size := DigitFold(Window(d, t + 2, ResourceDataSizeWidth));
      DecodeImageResource(d).value == ResourceBlock(
        ValueInBase(Render(Window(d, 4, UidWidth)), 16),
        "00",
        Render(Window(d, t + 6, size)))
  {
    match NameLength(d, NameStart)
    case None =>
    case Some(n) =>
      DecodeAtName(d, n);
      UnitIsTerminator(d, NameStart, n);
      AfterNameAccepted(d, NameStart + 2 * n);
  }

  /** Once the name has stopped at the unit at t, the block decodes exactly when
      a size byte follows the unit and the signature is "8BIM"; the uid is then
      the uid rendering read in base 16. */
  lemma AfterNameAccepted(d: seq<Byte>, t: nat)
    requires t + NameUnitWidth <= |d|
    ensures DecodeAfterName(d, t).Ok? <==> t + 2 < |d| && |d| >= 4 && Chars(d[..4]) == "8BIM"
    ensures DecodeAfterName(d, t).Ok? ==>
      DecodeAfterName(d, t).value == ResourceBlock(
        ValueInBase(Render(Window(d, 4, UidWidth)), 16),
        Render(Window(d, t, NameUnitWidth)),
        Render(Window(d, t + 6, DigitFold(Window(d, t + 2, ResourceDataSizeWidth)))))
  {
    HexWeightedIsBase16(Render(Window(d, 4, UidWidth)));
    SizedDataAccepted(d, t + 2);
  }

  /** The size field converts exactly when at least one of its bytes is there;
      the data is then the rendering of that many bytes, clamped to what is left. */
  lemma SizedDataAccepted(d: seq<Byte>, p: nat)
    ensures SizedDataAt(d, p).Ok? <==> p < |d|
    ensures SizedDataAt(d, p).Ok? ==>
      SizedDataAt(d, p).value == Render(Window(d, p + 4, DigitFold(Window(d, p, ResourceDataSizeWidth))))
  {
  }

  /** Where the terminator lies in a block laid out as signature, two uid bytes,
      name units none of which is the terminator, the zero unit, then anything. */
  lemma BlockTerminator(uidBytes: seq<Byte>, units: seq<Byte>, tail: seq<Byte>)
    requires |uidBytes| == 2 && |units| % 2 == 0 && NoTerminatorBefore(units, 0, |units| / 2)
    ensures NameLength(BlockSignatureBytes + uidBytes + units + [0, 0] + tail, NameStart)
      == Some(|units| / 2)
  {
    var d := BlockSignatureBytes + uidBytes + units + [0, 0] + tail;
    var n := |units| / 2;
    assert IsTerminatorUnit(d, NameStart, n);
    forall i | 0 <= i < n
      ensures !IsTerminatorUnit(d, NameStart, i)
    {
      assert d[NameStart + 2 * i] == units[2 * i] && d[NameStart + 2 * i + 1] == units[2 * i + 1];
      assert !IsTerminatorUnit(units, 0, i);
    }
    FirstTerminator(d, NameStart, n);
  }

  /** The fields of a block laid out as signature, uid, name units, the zero
      unit, then `tail`. */
  lemma BlockFields(uidBytes: seq<Byte>, units: seq<Byte>, tail: seq<Byte>)
    requires |uidBytes| == 2
    ensures var d := BlockSignatureBytes + uidBytes + units + [0, 0] + tail;
      var t := NameStart + |units|;
      Chars(Window(d, 0, BlockSignatureWidth)) == "8BIM" &&
      Window(d, 4, UidWidth) == uidBytes &&
      Render(Window(d, t, NameUnitWidth)) == "00" &&
      d[t + 2..] == tail
  {
    var d := BlockSignatureBytes + uidBytes + units + [0, 0] + tail;
    var t := NameStart + |units|;
    assert Window(d, 0, 4) == BlockSignatureBytes;
    assert Window(d, t, 2) == ZeroBytes(2);
    RenderIsZeros(ZeroBytes(2), 2);
    assert Zeros(2) == "00";
  }

  /** Reading at an offset past a prefix reads from what follows it. */
  lemma WindowAfter(d: seq<Byte>, k: nat, c: nat, n: nat)
    requires k <= |d|
    ensures Window(d, k + c, n) == Window(d[k..], c, n)
  {
  }

  /** The block a section decodes to, from the facts about where its fields lie. */
  lemma DecodedFromFields(d: seq<Byte>, n: nat, uidBytes: seq<Byte>, sizeBytes: seq<Byte>,
                          size: nat, payload: seq<Byte>)
    requires NameLength(d, NameStart) == Some(n)
    requires Chars(Window(d, 0, BlockSignatureWidth)) == "8BIM" && Window(d, 4, UidWidth) == uidBytes
    requires Window(d, NameStart + 2 * n + 2, ResourceDataSizeWidth) == sizeBytes
    requires sizeBytes != [] && DigitFold(sizeBytes) == size
    requires Window(d, NameStart + 2 * n + 6, size) == payload
    ensures DecodeImageResource(d) == Ok(ResourceBlock(HexWeighted(Render(uidBytes)), "00", Render(payload)))
  {
    UnitIsTerminator(d, NameStart, n);
    var p := NameStart + 2 * n + 2;
    SizedDataAccepted(d, p);
    assert p < |d| by { assert Window(d, p, ResourceDataSizeWidth) != []; }
    assert p + 4 == NameStart + 2 * n + 6;
    assert SizedDataAt(d, p).value == Render(payload);
    BlockFromReads(d, n, "8BIM", HexWeighted(Render(uidBytes)), "00", Render(payload));
  }

  /** A complete block followed by anything (a second block, say) decodes to
      that one block: the uid from its two bytes, the name "00", and the data
      rendered from exactly the declared number of bytes. Nothing after it is
      read. */
  lemma DecodeCompleteBlock(uidBytes: seq<Byte>, units: seq<Byte>, sizeBytes: seq<Byte>,
                            payload: seq<Byte>, rest: seq<Byte>)
    requires |uidBytes| == 2 && |units| % 2 == 0 && |sizeBytes| == 4
    requires NoTerminatorBefore(units, 0, |units| / 2)
    requires DigitFold(sizeBytes) == |payload|
    ensures DecodeImageResource(BlockSignatureBytes + uidBytes + units + [0, 0] + sizeBytes + payload + rest)
      == Ok(ResourceBlock(HexWeighted(Render(uidBytes)), "00", Render(payload)))
  {
    var tail := sizeBytes + payload + rest;
    var d := BlockSignatureBytes + uidBytes + units + [0, 0] + tail;
    assert d == BlockSignatureBytes + uidBytes + units + [0, 0] + sizeBytes + payload + rest;
    BlockLayout(uidBytes, units, tail, sizeBytes, |payload|, payload);
  }

  /** The declared size is not checked against what is left: a block whose data
      is cut short still decodes, with the data it has. */
  lemma TruncatedDataAccepted(uidBytes: seq<Byte>, units: seq<Byte>, sizeBytes: seq<Byte>,
                              payload: seq<Byte>)
    requires |uidBytes| == 2 && |units| % 2 == 0 && |sizeBytes| == 4
    requires NoTerminatorBefore(units, 0, |units| / 2)
    requires DigitFold(sizeBytes) > |payload|
    ensures DecodeImageResource(BlockSignatureBytes + uidBytes + units + [0, 0] + sizeBytes + payload)
      == Ok(ResourceBlock(HexWeighted(Render(uidBytes)), "00", Render(payload)))
  {
    var tail := sizeBytes + payload;
    var d := BlockSignatureBytes + uidBytes + units + [0, 0] + tail;
    assert d == BlockSignatureBytes + uidBytes + units + [0, 0] + sizeBytes + payload;
    BlockLayout(uidBytes, units, tail, sizeBytes, DigitFold(sizeBytes), payload);
  }

  /** Decoding a block laid out as signature, uid, name units, the zero unit and
      a tail that starts with the size field followed by the data read for it. */
  lemma BlockLayout(uidBytes: seq<Byte>, units: seq<Byte>, tail: seq<Byte>,
                    sizeBytes: seq<Byte>, size: nat, payload: seq<Byte>)
    requires |uidBytes| == 2 && |units| % 2 == 0 && |sizeBytes| == 4
    requires NoTerminatorBefore(units, 0, |units| / 2)
    requires DigitFold(sizeBytes) == size
    requires Window(tail, 0, 4) == sizeBytes && Window(tail, 4, size) == payload
    ensures DecodeImageResource(BlockSignatureBytes + uidBytes + units + [0, 0] + tail)
      == Ok(ResourceBlock(HexWeighted(Render(uidBytes)), "00", Render(payload)))
  {
    var d := BlockSignatureBytes + uidBytes + units + [0, 0] + tail;
    var n := |units| / 2;
    var t := NameStart + 2 * n;
    BlockTerminator(uidBytes, units, tail);
    BlockFields(uidBytes, units, tail);
    assert t == NameStart + |units|;
    WindowAfter(d, t + 2, 0, 4);
    WindowAfter(d, t + 2, 4, size);
    DecodedFromFields(d, n, uidBytes, sizeBytes, size, payload);
  }
}
