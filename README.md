# PSDParser model

A Dafny model of `PSDParser` from `entry.py`. `PSDParser` is a partial
reader of Adobe Photoshop (PSD) files that fills a `_PSD` object from
three parts of the file:

- the 26-byte File Header;
- the Color Mode Data section;
- one block of the Image Resources section.

The model follows the code as written, including where it departs from the
file format:

- **Header integers are not binary.** Each integer field of the header is
  decoded as `int(''.join(map(str, bytes)))`, the decimal renderings of its
  bytes concatenated. For example, bytes `01 00` decode to 10, not 256
  (`Conversions.DigitConcat`, `Conversions.DigitConcatIsNotBinary`).
- **Section lengths are binary.** The two lengths `parse` reads are
  big-endian (`Conversions.BigEndian`).
- **Only version 1 gets through.** The header check lets versions 0 and 1
  through, but the `_Version` validator accepts only 1 and 2. Only 1
  passes both, so `is_psb` is always false. The PSB limits of `_SIZE` are
  never used (`HeaderDecoding.PsbVersionRejected`).
- **A 25-byte header can be accepted.** The colour-mode field needs only
  one byte to convert.
- **The uid is a hex-weighted digit sum.** It is the decimal rendering of
  the two uid bytes, read as if its digits were hexadecimal.
- **The stored block name is always `"00"`.** The block is built from the
  loop variable `name`, which by then holds the terminator. The joined
  name is computed and then dropped.
- **Block data is stored as text.** It is the decimal rendering of the
  bytes read, and may be fewer bytes than declared.
- **Only one resource block is decoded.**
- **Colour-mode data is refused.** Any non-empty colour-mode data makes
  the parse fail.
- **A declared but absent colour-mode section is not an error.** The read
  returns nothing, and nothing counts as no colour-mode data.
- **Failures become errors.** Every `assert`, every `int('')` and the
  never-ending name loop is modelled as an error value (`Types.Error`,
  one constructor per kind of failure).

Modules:

- `Types`: bytes, errors and result wrappers.
- `Conversions`: the byte-to-text and text-to-integer conversions, and
  the lemmas about them.
- `Validators`: `_Version`, `_Depth`, `_ColorMode`, `_SIZE`.
- `HeaderDecoding`: `_read_header` as a function on bytes.
- `ResourceDecoding`: `_read_colormode` and `_read_imageresource` as
  functions on bytes.
- `Cursor`: the two readers.
  - `ByteCursor` is the `read_bytes` closure. Its cursor moves by the
    requested count even past the end.
  - `FileStream` is the opened file. Its `read` stops at the end.
- `PsdParser`: the `_PSD` class and the imperative decoders and `parse`.
  Each is proved against the functions above.

## Model

| member | source | states |
|---|---|---|
| Conversions.Window | entry.py:155 | A `read_bytes` slice has at most n bytes, equals `s[c..c+n]` when in range, is clamped to the end otherwise, and is empty past the end |
| Conversions.DecimalLiteral | entry.py:161 | On the digit-only texts the parser builds, `int(text)` succeeds exactly when the text is non-empty; the empty text raises |
| Conversions.Chars | entry.py:160 | `''.join(map(chr, bytes))` for the header and block signatures: one character per byte, so the text has the bytes' length; otherwise characterised by SignatureCheckedFirst and ImageResourceAccepted |
| Conversions.Render | entry.py:157 | Joined decimal renderings are all digits and at least one character per byte |
| Conversions.RenderValue | entry.py:157-161 | The value of the joined renderings is the digit fold of the bytes |
| Conversions.DigitConcat | entry.py:161-167 | An integer header field is the digit fold of its bytes when non-empty; an empty field raises on the empty text |
| Conversions.DigitConcatIsNotBinary | entry.py:161 | Bytes 01 00 decode to 10 and 03 ED to 3237; read big-endian, 01 00 would be 256 |
| Conversions.TwoByteFieldIsOne | entry.py:161 | A two-byte field decodes to 1 exactly when its bytes are 00 01 |
| Conversions.RenderIsZeros | entry.py:162 | A reserved-bytes rendering is k zero characters exactly when the bytes are k zero bytes |
| Conversions.HexWeighted | entry.py:223 | No contract of its own; the uid digit sum, characterised by HexWeightedIsBase16 |
| Conversions.HexWeightedIsBase16 | entry.py:223 | The uid digit sum equals the decimal rendering's value read in base 16 |
| Conversions.BigEndian | entry.py:251-252 | No contract of its own; `int.from_bytes(..., 'big')`, characterised by BigEndianRoundTrip, BigEndianBound and BigEndianZero |
| Conversions.BigEndianRoundTrip | entry.py:251-252 | Decoding the k-byte big-endian encoding of n < 256^k gives back n |
| Conversions.BigEndianBound | entry.py:251-252 | A big-endian length read from k bytes is below 256^k |
| Conversions.BigEndianZero | entry.py:258-259 | A section length is zero (its section is skipped) exactly when all its bytes are zero |
| Validators.NewVersion | entry.py:25-27 | Accepts exactly 1 and 2; `is_psb` holds exactly for 2; otherwise the error names the value |
| Validators.NewDepth | entry.py:35-45 | Accepts exactly the depths 1, 8, 16 and 32 and stores the key |
| Validators.NewColorMode | entry.py:53-79 | Accepts exactly the modes 0-4 and 7-9 and stores the key |
| Validators.NewSize | entry.py:93-100 | Accepts exactly when both dimensions are in 1..30000 (1..300000 for PSB) and stores them unswapped |
| HeaderDecoding.DecodeHeader | entry.py:135-182 | No contract of its own; `_read_header` on the bytes it is given, characterised by HeaderAccepted, ShortHeaderFails, SignatureCheckedFirst and PsbVersionRejected |
| HeaderDecoding.CheckHeader | entry.py:170-180 | No contract of its own; the checks and validators after the conversions, characterised by CheckHeaderAccepted |
| HeaderDecoding.HeaderAccepted | entry.py:135-182 | The header is accepted exactly when it has at least 25 bytes, the signature is "8BPS", the version bytes are 00 01, the reserved bytes are zero, and the channel count, height, width, depth and colour mode are in range; the stored values are then the decoded ones, with width and height unswapped and PSB false |
| HeaderDecoding.DecodeHeaderFields | entry.py:160-167 | With every field present, each integer field is the digit fold of its own byte range and the signature and reserved text are those bytes' renderings |
| HeaderDecoding.CheckHeaderAccepted | entry.py:170-180 | The checks and validators pass exactly when the signature is "8BPS", the version is 1, the reserved text is six zeros, and channels, sizes, depth and mode are in range; the header then holds those values, not PSB |
| HeaderDecoding.FixedFieldsAccepted | entry.py:161-172 | The version field decodes to 1 exactly when its bytes are 00 01; the reserved field renders as "000000" exactly when its bytes are six zeros |
| HeaderDecoding.FieldWidthsCoverHeader | entry.py:160-167 | The eight header fields read back to back take exactly the 26 bytes the parser reads for the header |
| HeaderDecoding.ShortHeaderFails | entry.py:153-167 | A header under 25 bytes leaves a field empty and fails converting it, before any check |
| HeaderDecoding.SignatureCheckedFirst | entry.py:170 | With every field present, a wrong signature is the error reported, whatever else is wrong |
| HeaderDecoding.PsbVersionRejected | entry.py:171 | Version bytes 00 02 (PSB) fail the header's version check |
| ResourceDecoding.ReadColorMode | entry.py:185-196 | The colour-mode section passes exactly when it is empty; otherwise it fails as unsupported |
| ResourceDecoding.TerminatorFrom | entry.py:226-229 | The unit found is a terminator, is at or after the start, and no unit before it is one; when none is found, no later unit is a terminator |
| ResourceDecoding.NameLength | entry.py:226-229 | The name's length in units is the index of its first zero unit; none when no whole zero unit exists |
| ResourceDecoding.UnitIsTerminator | entry.py:227 | A unit renders as "00" exactly when it is a whole unit of two zero bytes |
| ResourceDecoding.NameCharsInOrder | entry.py:224-229 | The collected name units are n renderings, the i-th being the unit at c + 2i |
| ResourceDecoding.DecodeImageResource | entry.py:201-243 | No contract of its own; `_read_imageresource` on the section's bytes, characterised by ImageResourceAccepted, DecodeCompleteBlock and TruncatedDataAccepted |
| ResourceDecoding.DecodeAfterName | entry.py:230-239 | No contract of its own; the part of `_read_imageresource` after the name loop, characterised by AfterNameAccepted |
| ResourceDecoding.SizedDataAt | entry.py:232-233 | No contract of its own; the size field and the data it announces, characterised by SizedDataAccepted |
| ResourceDecoding.ImageResourceAccepted | entry.py:201-243 | A block decodes exactly when its name terminates, at least one size byte follows, and the signature is "8BIM"; then the uid is the rendering read in base 16, the name is "00", and the data is the rendering of the next `size` bytes |
| ResourceDecoding.AfterNameAccepted | entry.py:230-239 | Once the name stops, the block decodes exactly when a size byte follows and the signature is "8BIM"; the uid is then read in base 16 and the name is the stopping unit's rendering |
| ResourceDecoding.SizedDataAccepted | entry.py:232-233 | The size field converts exactly when at least one of its bytes is present; the data is then the rendering of that many bytes, clamped to what is left |
| ResourceDecoding.DecodeCompleteBlock | entry.py:221-240 | A well-formed block followed by anything decodes to that block alone, with its data taken from exactly the declared bytes |
| ResourceDecoding.TruncatedDataAccepted | entry.py:232-233 | A block whose data is shorter than its declared size still decodes, with the data it has |
| Cursor.ByteCursor.ReadBytes | entry.py:153-157 | Returns the clamped slice at the cursor and moves the cursor by exactly n |
| Cursor.FileStream.Read | entry.py:256-264 | Returns the clamped slice at the position and moves the position by the bytes returned, to the end when fewer than n |
| PsdParser.Psd.constructor | entry.py:120-131 | `_PSD`: a new document has no version, depth, mode or size set, a channel count of 0 and no resource blocks |
| PsdParser.ReadHeader | entry.py:135-182 | Passes exactly when the header decodes; on failure the error is the decoder's; on success the document holds the decoded header |
| PsdParser.StoreHeader | entry.py:170-180 | Runs the checks and validators in source order; the outcome and stored values agree with the header checks |
| PsdParser.ReadNameUnits | entry.py:224-229 | The loop ends exactly when the name has a terminator; it then leaves `name` as "00", the collected units in order, and the cursor just after the terminator |
| PsdParser.Join | entry.py:230 | No contract of its own; `''.join(namechars)`, whose result the source computes and then drops |
| PsdParser.ReadBlockId | entry.py:222-223 | Reads the signature and the uid in order, the uid being the hex-weighted digit sum of the uid bytes' rendering, and moves the cursor past both |
| PsdParser.ReadSizedData | entry.py:232-233 | Reading the size field and then that many bytes agrees with the sized data at the cursor, including the failure on an empty size field; the cursor moves by 4, then by the size read |
| PsdParser.ReadBlock | entry.py:201-239 | The block read through the cursor is exactly the block decoded from the section's bytes, errors included |
| PsdParser.ReadImageResource | entry.py:201-243 | Passes exactly when the block decodes; on success appends exactly the decoded block to the document's list; on failure leaves the list unchanged |
| PsdParser.SectionAt | entry.py:258-264 | A section read stays within the file; a zero length reads no data and stops after the length field |
| PsdParser.Frame | entry.py:256-264 | Reading stays within the file; otherwise characterised by FrameOfLayout, EmptySections and MissingColorModeDataAccepted |
| PsdParser.ParseSpec | entry.py:247-266 | A parsed document holds at most one block and the header decoded from the first 26 bytes; a header error is the parse's error |
| PsdParser.ReadSection | entry.py:258-264 | Reading a length and its section agrees with the section read at the position and moves to its end |
| PsdParser.Parse | entry.py:247-266 | Succeeds exactly when the file's bytes parse; the error is the first one raised; on success returns a new document equal to the parsed one, stopping at the end of the sections |
| PsdParser.SectionOfLayout | entry.py:258-264 | A section written as a big-endian length followed by its bytes is read back whole |
| PsdParser.FrameOfLayout | entry.py:247-266 | For a file laid out as header, length, colour-mode data, length and resources, `parse` reads back exactly those parts; nothing after them is read |
| PsdParser.EmptySections | entry.py:256-264 | With both section lengths zero, the document is the header with no blocks, and reading stops 8 bytes after the header |
| PsdParser.ColorModeDataRejected | entry.py:258-260 | Any non-empty colour-mode section fails the parse as unsupported |
| PsdParser.ResourcesDecoded | entry.py:262-264 | A non-empty resources section gives the document exactly its decoded block, or fails with that block's error |
| PsdParser.MissingColorModeDataAccepted | entry.py:256-264 | A file that ends right after a colour-mode length parses to its header with no blocks |

## Left out

- The file-picking helper `pick_psdfile`: it lists a directory. Opening and closing the file with `open`/`with` is also left out; `Parse` takes the opened file's bytes as a `FileStream`.
- The JSON dump and print of the parsed document at module level: output only.
- The `__repr__` methods of the validator and block classes: display only.
- The meaning of palette and duotone data and of resource ids: the code leaves these unparsed.
- The `if not result_file` guards: a `_PSD` object is always truthy, so they never return early.
- `_PSD.image_resource_blocks` is a class attribute in the source, so one list is shared by every `_PSD` object. Here each document owns its list; the aliasing across documents is not modelled.
- Validators.NewDepth: the source's failure message names an undefined variable, so the failing assertion raises NameError instead of AssertionError. Here it is the error `InvalidColorDepth`; the model distinguishes only errors, not Python exception types.
- ResourceDecoding.DecodeImageResource: when the name has no terminator, the source loops forever reading empty units. The model stops and reports `NameNeverTerminated`.
- Python exception messages are reduced to the error constructor and the offending values.
