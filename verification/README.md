# pdf2xml output device, modelled in Dafny

pdf2xml converts a PDF book to an XML document plus one picture file per
image. The xpdf renderer walks each page and calls back into the output
device `MbpOutputDev`. The device:

- coalesces the text fragments it is handed into text blocks, joining
  fragments on one line and dropping drop-shadow overprints;
- tracks the current font;
- turns link annotations into page links or URL links;
- writes every image to a JPEG or PNG file, once per image object and
  flip.

Everything it emits goes through the `XmlOutput` writer: the `<pdf2xml>`
document, its `<page>` and `<font>` elements, and the `<text>`, `<img>`
and `<link>` elements inside them.

The model follows the two core files, `pdf2xml/pdf2xml.h` and
`pdf2xml/pdf2xml.cpp`, module by module:

- `Geometry`: the `Rect` value type, with surface, intersection and
  enlargement.
- `Numeric`: the device's `round` and `clamp`, and the packing of a fill
  colour.
- `Numbers`: `write(int)` as a right-to-left buffer loop. It is proved
  equal to a canonical decimal spelling that reads back to the number. The
  4- and 6-digit hexadecimal spellings are also here.
- `TextEncoding`: `add_metatag`'s byte-order-mark detection and its
  escaping / UTF-8 conversion loop, with a decoder it round-trips with.
- `Markup`: a small reader of XML tags and a scanner of element nesting.
  They are the independent reference the writer's output is checked
  against.
- `XmlWriter`: the class `XmlOutput`. Its file is the string `out` of
  everything written so far, with the `page_opened`/`font_opened` flags.
  Every tag it writes is proved to read back to its attributes, and every
  method keeps the document well nested, under conditions on the strings
  the source writes raw. These are a font face without '"', a URL or picture
  file name without '<', '>', '"' or NUL, text without '<', and a meta tag
  name that is a plain XML name. The device meets the text condition
  because `handle_string` escapes '<', '>' and '&' in every fragment
  (pdf2xml.cpp:1090-1092). That is why `DrawString` keeps the document well
  nested for text without '<'.
- `Coalesce`: the pure decisions of `drawString`: blank fragments, the
  space-insensitive comparison, line joining, stitching and overprint.
- `Links`: the link classification of `drawLink`.
- `Pictures`: picture orientation and format, the picture registry (the
  `dev_picture_references` list), file names, `append_image_block`'s
  relative name, and `main`'s output names.
- `Raster`: the in-place buffer algorithms of `drawImageOrMask`. These are
  the flipped 1-bit read, the bit reversal, the row-aligning shift and the
  flipped RGB read. They are proved pixel by pixel against a mirrored
  layout.
- `OutputDevice`: two classes.
  - `Device` is `MbpOutputDev`, with its fields updated in place.
  - `PictureRegistry` is the device's picture base, picture number and
    reference list.

Renderer inputs are parameters of the device methods: transformed
coordinates, string widths, space widths, fonts, fill colours, decoded
image samples and the document catalog.

## Model

| member | source | states |
|---|---|---|
| Geometry.Rect.Surface | pdf2xml/pdf2xml.h:54 | width times height: at least each side when both are positive, zero when a side is zero, negative when the sides have opposite signs |
| Geometry.Rect.IsIntersecting | pdf2xml/pdf2xml.cpp:42-61 | the overlap runs from the larger left/top edge to the smaller right/bottom edge; the answer is true iff both overlap sides are positive; a pixel lies in the overlap iff it lies in both rectangles |
| Geometry.IntersectionSymmetric | pdf2xml/pdf2xml.cpp:42-61 | the intersection does not depend on argument order |
| Geometry.DisjointNeverIntersect | pdf2xml/pdf2xml.cpp:42-61 | rectangles apart on either axis do not intersect |
| Geometry.Rect.EnlargeToContain | pdf2xml/pdf2xml.cpp:65-100 | an accumulator with a zero side takes the operand; an operand with a zero side changes nothing; otherwise the result spans from the smaller left/top to the larger right/bottom edge |
| Geometry.EnlargeIsSmallestCover | pdf2xml/pdf2xml.cpp:74-99 | for positive sides the result covers both rectangles and lies within every rectangle that covers both |
| Geometry.EnlargeContainsBoth | pdf2xml/pdf2xml.cpp:74-99 | every pixel of either rectangle lies in the enlarged one |
| Geometry.EnlargeZero | pdf2xml/pdf2xml.cpp:67-73 | enlarging the zero rectangle yields the operand |
| Numeric.Trunc | pdf2xml/pdf2xml.h:199 | the C conversion to int truncates toward zero |
| Numeric.Round | pdf2xml/pdf2xml.h:197-200 | `(int)(x+0.5)`: the nearest integer (halves up) for x >= -0.5, and one half further toward zero below that |
| Numeric.Clamp | pdf2xml/pdf2xml.h:203-208 | the result lies in 0..255, equals x inside that range, and is 255 above it and 0 below it |
| Numeric.ClampMonotone | pdf2xml/pdf2xml.h:203-208 | clamping keeps the order of its arguments |
| Numeric.ComponentByte | pdf2xml/pdf2xml.cpp:868 | `clamp(c >> 8)` is a byte, and it is c / 256 for an in-range component |
| Numeric.PackColor | pdf2xml/pdf2xml.cpp:868 | the packed colour lies in 0..0xFFFFFF |
| Numeric.PackColorBytes | pdf2xml/pdf2xml.cpp:868 | its three bytes are the three clamped components, red highest |
| Numbers.FormatInt | pdf2xml/pdf2xml.cpp:143-176 | the buffer loop of `write(int)` produces exactly the decimal spelling `Decimal(number)` |
| Numbers.DecimalCanonical | pdf2xml/pdf2xml.cpp:143-176 | the spelling is "0" only for zero, starts with '-' iff negative, is digits otherwise with no leading zero, fits the 11-character buffer, and reads back to the number |
| Numbers.DecimalAlphabet | pdf2xml/pdf2xml.cpp:165-171 | only digits and '-' are written |
| Numbers.DigitsShape | pdf2xml/pdf2xml.cpp:163-167 | the digit loop writes digits only, no leading zero, and their value is the magnitude |
| Numbers.DigitsLength | pdf2xml/pdf2xml.cpp:163-167 | a magnitude below 10^k takes at most k digits |
| Numbers.MagnitudeFits | pdf2xml/pdf2xml.cpp:145-167 | a 31-bit magnitude takes at most 10 digits |
| Numbers.HexRoundTrip | pdf2xml/pdf2xml.cpp:1583-1584 | n nibbles spelled from `HEXADECIMAL_CHARACTERS` are hex digits whose value is n modulo 16^count |
| Numbers.HexDigitAt | pdf2xml/pdf2xml.cpp:369 | digit i is the character of nibble count-1-i |
| Numbers.HexDigitsWrap | pdf2xml/pdf2xml.cpp:1583-1584 | numbers equal modulo 16^count are spelled alike |
| Coalesce.AllBlanks | pdf2xml/pdf2xml.cpp:800-813 | the blank scan answers true iff every character is a space, LF or CR |
| Coalesce.ScanOutcome | pdf2xml/pdf2xml.cpp:983-997 | where the two-index scan stops decides `SameText`: equal once spaces are deleted, with neither text ending in an unmatched space |
| Coalesce.SameTextSymmetric | pdf2xml/pdf2xml.cpp:969-998 | the comparison does not depend on which text is pending |
| Coalesce.InnerSpaceIgnored | pdf2xml/pdf2xml.cpp:983-995 | an inner space does not change the comparison |
| Coalesce.VerticalOverlapSymmetric | pdf2xml/pdf2xml.cpp:896 | `horizontal_intersect` does not depend on fragment order |
| Coalesce.SpaceOnlyWhenJoining | pdf2xml/pdf2xml.cpp:897-913 | a space is prepended only to a joining fragment, off the same baseline, after a gap of at least 3/4 space |
| Coalesce.FarFragmentsNeverJoin | pdf2xml/pdf2xml.cpp:897-913 | a gap of 2.4 spaces or more, or a non-positive space width, never joins |
| Coalesce.AdjacentFragmentsJoin | pdf2xml/pdf2xml.cpp:897-903 | a fragment on the same baseline within 3/4 space joins without a space |
| Coalesce.Stitched | pdf2xml/pdf2xml.cpp:916-921 | a stitched fragment starts at the rounded end of the previous one and keeps its right edge, top and height |
| Coalesce.ReprintOverprints | pdf2xml/pdf2xml.cpp:883-889 | the same text at the same place overprints |
| Coalesce.ApartNeverOverprints | pdf2xml/pdf2xml.cpp:883-889 | fragments apart on either axis never overprint |
| Links.ResolveLink | pdf2xml/pdf2xml.cpp:607-697 | a URL link iff a valid URI action has an address; a page link iff a valid go-to action has a usable destination (a named one looked up in the catalog wins), with page-1 and the rounded transformed (left, top) for XYZ or (0, 0) for the fit kinds; nothing otherwise |
| Links.ExternalLinksDropped | pdf2xml/pdf2xml.cpp:686-696 | remote go-to and other actions give no link |
| Links.NamedDestinationWins | pdf2xml/pdf2xml.cpp:634-641 | with a named destination, the direct destination does not matter |
| Links.FitLinksToPageTop | pdf2xml/pdf2xml.cpp:672-675 | a valid fit-kind destination links to (0, 0) of its page counted from 0 |
| Pictures.FlipCode | pdf2xml/pdf2xml.cpp:1165-1184 | the flip code is 0..3, its bit 0 the x flip and its bit 1 the y flip |
| Pictures.FlipCodeInjective | pdf2xml/pdf2xml.cpp:1165-1184 | the flip code determines both flips |
| Pictures.Orient | pdf2xml/pdf2xml.cpp:1173-1189 | the corners are swapped into order, the flips are set iff a swap happened, and the code is computed from them |
| Pictures.Extension | pdf2xml/pdf2xml.cpp:1228 | extensions are three plain characters |
| Pictures.SelectFormat | pdf2xml/pdf2xml.cpp:1223-1258 | JPEG iff the stream is DCT, a mask or 3-component, and not inline; otherwise 1-bit PNG iff a mask or a 1-component 1-bit image; RGB PNG in every other case (masks and 1-bit gray images are never RGB) |
| Pictures.FirstMatch | pdf2xml/pdf2xml.cpp:1196-1210 | the first entry with the object number and flip, or none when no entry has them |
| Pictures.FirstMatchUnique | pdf2xml/pdf2xml.cpp:1196-1210 | the first matching index is the one found |
| Pictures.LookupPicture | pdf2xml/pdf2xml.cpp:1196-1210 | the search loop finds `FirstMatch` |
| Pictures.RegisterKeepsRegistry | pdf2xml/pdf2xml.cpp:1450-1454 | registering a new key under the next number keeps numbers increasing and keys unique |
| Pictures.NumberKeepsRegistry | pdf2xml/pdf2xml.cpp:1229 | taking a number without registering keeps the registry invariant |
| Pictures.DrawnKeepsRegistry | pdf2xml/pdf2xml.cpp:1191-1455 | the registry after a picture is drawn still has unique keys and increasing numbers |
| Pictures.RegistryLookup | pdf2xml/pdf2xml.cpp:1196-1210 | in a valid registry each entry is the first match of its own key |
| Pictures.UnreferencedNeverFound | pdf2xml/pdf2xml.cpp:1450 | an image without an object reference is never found in the registry |
| Pictures.ImageFilename | pdf2xml/pdf2xml.cpp:1577-1588 | the name is 9 characters longer than base and extension together |
| Pictures.ComposeImageFilename | pdf2xml/pdf2xml.cpp:1577-1588 | the loop builds base + "_pic" + four hex digits + "." + extension |
| Pictures.ImageFilenameInjective | pdf2xml/pdf2xml.cpp:1583-1584 | numbers below 0x10000 get distinct names |
| Pictures.HexDigitsInjective | pdf2xml/pdf2xml.cpp:1583-1584 | below 16^count the hex spelling is injective |
| Pictures.ImageFilenameWraps | pdf2xml/pdf2xml.cpp:1583-1584 | picture numbers 0x10000 apart get the same name |
| Pictures.LastSeparator | pdf2xml/pdf2xml.cpp:1004-1015 | the index of the last '/' or '\\', or -1 |
| Pictures.RelativeName | pdf2xml/pdf2xml.cpp:1004-1017 | the name after the last separator, free of separators and NUL |
| Pictures.RelativeNameOf | pdf2xml/pdf2xml.cpp:1002-1017 | the scan of `append_image_block` computes `RelativeName` |
| Pictures.RelativeNamePlain | pdf2xml/pdf2xml.cpp:1004-1017 | a name without separators is its own relative name |
| Pictures.RelativeNameIdempotent | pdf2xml/pdf2xml.cpp:1004-1017 | taking the relative name twice changes nothing |
| Pictures.RelativeImageFilename | pdf2xml/pdf2xml.cpp:1017 | the relative name of a picture file is the relative base followed by the suffix |
| Pictures.RelativeNameMarkupFree | pdf2xml/pdf2xml.cpp:1017 | relative names of markup-free names carry no markup |
| Pictures.ImageFilenameMarkupFree | pdf2xml/pdf2xml.cpp:1577-1588 | a picture name from a markup-free base carries no markup |
| Pictures.RegisteredNameMarkupFree | pdf2xml/pdf2xml.cpp:1204-1207 | a reused picture name carries no markup |
| Pictures.PictureNameMarkupFree | pdf2xml/pdf2xml.cpp:1191-1261 | the name written for any picture carries no markup when the base has none |
| Pictures.OutputNames | pdf2xml/pdf2xml.cpp:1630-1661 | the argument is cut after its last separator; a 4-character ".ext" suffix is dropped for the picture base, and the output file is that base + ".xml" |
| Raster.Stride | pdf2xml/pdf2xml.cpp:1263 | `(width + 7) >> 3` bytes hold a row |
| Raster.Gap | pdf2xml/pdf2xml.cpp:1335 | the padding bits of a row, zero iff the width is a multiple of 8 |
| Raster.StreamBytes | pdf2xml/pdf2xml.cpp:1313 | the bytes `getChar` returns, 0xFF past the end of the stream |
| Raster.ReverseBitsMirror | pdf2xml/pdf2xml.cpp:1329-1332 | the nibble/pair/bit swap mirrors the bits of a byte |
| Raster.ReverseBitsInvolution | pdf2xml/pdf2xml.cpp:1329-1332 | mirroring twice restores the byte |
| Raster.CarriedBit | pdf2xml/pdf2xml.cpp:1348-1351 | each bit of a shifted byte comes from the byte itself or from the following one |
| Raster.MirrorInvolution | pdf2xml/pdf2xml.cpp:1270-1306 | mirroring an index twice restores it and stays in range |
| Raster.TargetInRange | pdf2xml/pdf2xml.cpp:1270-1318 | every source cell lands inside the buffer |
| Raster.TargetsInRange | pdf2xml/pdf2xml.cpp:1270-1318 | all source cells land inside the buffer |
| Raster.TargetInjective | pdf2xml/pdf2xml.cpp:1270-1318 | distinct source cells land on distinct buffer cells |
| Raster.TargetOnto | pdf2xml/pdf2xml.cpp:1270-1318 | every buffer cell receives a source cell |
| Raster.FirstCell | pdf2xml/pdf2xml.cpp:1273-1306 | the four start values of `k` are the target of cell (0, 0) |
| Raster.NextCell | pdf2xml/pdf2xml.cpp:1311-1315 | `x_increment` moves to the next cell of the row |
| Raster.NextRow | pdf2xml/pdf2xml.cpp:1283-1317 | `y_increment` moves to the first cell of the next row |
| Raster.ReadMonochrome | pdf2xml/pdf2xml.cpp:1268-1318 | the byte read for row y, column x lands at its mirrored cell |
| Raster.ReadRow | pdf2xml/pdf2xml.cpp:1311-1315 | one row of bytes lands at its mirrored cells |
| Raster.ReverseBytes | pdf2xml/pdf2xml.cpp:1326-1333 | the in-place loop mirrors every byte |
| Raster.ReversedBit | pdf2xml/pdf2xml.cpp:1326-1333 | a bit of a mirrored buffer is the mirrored bit of the original byte |
| Raster.ShiftBuffer | pdf2xml/pdf2xml.cpp:1340-1352 | the backward loop carries each byte's remainder into the previous byte |
| Raster.CarryByte | pdf2xml/pdf2xml.cpp:1348-1351 | one loop step stores the shifted byte and returns its remainder |
| Raster.ShiftedStream | pdf2xml/pdf2xml.cpp:1346-1352 | the carried buffer is the bit stream shifted by 8 - (width mod 8) |
| Raster.AlignRows | pdf2xml/pdf2xml.cpp:1335-1353 | the buffer is shifted by the row gap, and untouched when the width is a multiple of 8 |
| Raster.MonochromeImage | pdf2xml/pdf2xml.cpp:1263-1354 | pixel (y, x) of the image is the bit at the mirrored row and column of the PNG buffer |
| Raster.PixelsPlain | pdf2xml/pdf2xml.cpp:1308-1318 | without an x flip the read layout already places every pixel |
| Raster.PixelsMirrored | pdf2xml/pdf2xml.cpp:1320-1354 | with an x flip, reversal followed by the shift places every pixel at its mirrored column |
| Raster.ReadRgb | pdf2xml/pdf2xml.cpp:1378-1440 | the three clamped bytes of pixel (y, x) land at its mirrored cell |
| Raster.ReadRgbRow | pdf2xml/pdf2xml.cpp:1426-1440 | one row of pixels lands at its mirrored cells |
| Raster.StorePixel | pdf2xml/pdf2xml.cpp:1432-1434 | three bytes are stored and `k` advances by 3 |
| Raster.PutPixelEffect | pdf2xml/pdf2xml.cpp:1432-1434 | storing a pixel sets its cell and leaves every other cell alone |
| Raster.PixelStep | pdf2xml/pdf2xml.cpp:1429-1437 | storing the next pixel extends the filled part of the buffer by one pixel |
| TextEncoding.Byte | pdf2xml/pdf2xml.cpp:257-261 | `(unsigned char)`: a byte, the character itself below 256 |
| TextEncoding.Utf8 | pdf2xml/pdf2xml.cpp:296 | a code unit takes 1, 2 or 3 UTF-8 bytes by its range |
| TextEncoding.Utf8WellFormed | pdf2xml/pdf2xml.cpp:296 | the 1-, 2- and 3-byte lead/continuation shapes without overlong forms, all bytes |
| TextEncoding.SurrogateUnitEncoding | pdf2xml/pdf2xml.cpp:296 | a surrogate unit 0xD800..0xDFFF is written alone as 0xED, a byte in 0xA0..0xBF and a continuation byte |
| TextEncoding.Utf8RoundTrip | pdf2xml/pdf2xml.cpp:296 | decoding the front of an encoding returns the code unit and its length |
| TextEncoding.MapUtf8 | pdf2xml/pdf2xml.cpp:296 | `mapUTF8` writes the encoding when it fits in the room left, and nothing otherwise |
| TextEncoding.DetectMark | pdf2xml/pdf2xml.cpp:204-241 | the UTF-8 mark is skipped, and the UTF-16 marks set unicode, endianness, start 2 and an even end |
| TextEncoding.UnitSpan | pdf2xml/pdf2xml.cpp:222-241 | the code units after the mark exactly cover start..end within the value |
| TextEncoding.EncodeUnit | pdf2xml/pdf2xml.cpp:269-303 | a code unit is written as 1 to 5 characters |
| TextEncoding.WriteUnit | pdf2xml/pdf2xml.cpp:269-303 | the switch writes the entity or the encoded unit after what was there |
| TextEncoding.ConvertStep | pdf2xml/pdf2xml.cpp:251-304 | one loop step extends the converted prefix by the next code unit |
| TextEncoding.ConvertUnits | pdf2xml/pdf2xml.cpp:246-305 | the loop writes the encoding of the code units |
| TextEncoding.ConvertMetaValue | pdf2xml/pdf2xml.cpp:204-305 | the whole conversion yields `MetaText(value)` |
| TextEncoding.MetaTextLength | pdf2xml/pdf2xml.cpp:243-248 | the converted text fits the 6-per-byte buffer |
| TextEncoding.EncodeUnitsLength | pdf2xml/pdf2xml.cpp:243-248 | each code unit takes at most 5 characters |
| TextEncoding.EncodeUnitClean | pdf2xml/pdf2xml.cpp:269-291 | no encoded unit contains '<' or '>' |
| TextEncoding.EncodeUnitsClean | pdf2xml/pdf2xml.cpp:269-291 | no encoded sequence contains '<' or '>' |
| TextEncoding.MetaTextClean | pdf2xml/pdf2xml.cpp:269-291 | the converted value contains no '<' or '>' and only bytes |
| TextEncoding.ReadEncodedUnits | pdf2xml/pdf2xml.cpp:269-303 | decoding the written text returns the code units |
| TextEncoding.MetaTextRoundTrip | pdf2xml/pdf2xml.cpp:204-305 | decoding the converted value returns the code units after the mark |
| TextEncoding.RawCopiedVerbatim | pdf2xml/pdf2xml.cpp:264-300 | a byte value without a UTF-16 mark or special characters is copied as is after its mark |
| TextEncoding.OddTrailingByteIgnored | pdf2xml/pdf2xml.cpp:231-239 | a trailing odd byte of UTF-16 is dropped |
| XmlWriter.CString | pdf2xml/pdf2xml.cpp:133-139 | `write(const char*)` writes the prefix before the first NUL |
| XmlWriter.CStringPlain | pdf2xml/pdf2xml.cpp:133-139 | a string without NUL is written whole |
| XmlWriter.ColorNumber | pdf2xml/pdf2xml.cpp:365-370 | the loop spells the colour as six hex digits |
| XmlWriter.FontColorValue | pdf2xml/pdf2xml.cpp:365-374 | a color attribute appears iff the colour is non-zero, as '#' and six digits whose value is the colour modulo 2^24 |
| XmlWriter.FontSizeValue | pdf2xml/pdf2xml.cpp:356-357 | the size attribute reads back as the size |
| XmlWriter.BoundsWritten | pdf2xml/pdf2xml.cpp:102-109 | the writes of `WRITE_BOUNDS` spell the four bounds |
| XmlWriter.DocumentOpenWritten | pdf2xml/pdf2xml.cpp:513-515 | the writes of the document tag spell it |
| XmlWriter.PageOpenWritten | pdf2xml/pdf2xml.cpp:335-339 | the writes of the page tag spell it |
| XmlWriter.FontOpenWritten | pdf2xml/pdf2xml.cpp:356-386 | the writes of the font tag spell it |
| XmlWriter.PageLinkWritten | pdf2xml/pdf2xml.cpp:397-405 | the writes of a page link spell it |
| XmlWriter.UrlLinkWritten | pdf2xml/pdf2xml.cpp:416-420 | the writes of a URL link spell it |
| XmlWriter.TextBlockWritten | pdf2xml/pdf2xml.cpp:431-435 | the writes of a text block spell it |
| XmlWriter.ImageBlockWritten | pdf2xml/pdf2xml.cpp:446-450 | the writes of an image block spell it |
| XmlWriter.MetatagWritten | pdf2xml/pdf2xml.cpp:200-312 | the writes of a meta tag spell it |
| XmlWriter.DocumentOpenIsTag | pdf2xml/pdf2xml.cpp:513-515 | the document line is the start tag `pdf2xml` with attribute pages |
| XmlWriter.PageOpenIsTag | pdf2xml/pdf2xml.cpp:335-339 | the page line is an indented start tag with width and height |
| XmlWriter.FontOpenIsTag | pdf2xml/pdf2xml.cpp:356-386 | the font line is an indented start tag with size and the optional face, color, bold and italic |
| XmlWriter.PageLinkIsTag | pdf2xml/pdf2xml.cpp:397-405 | a page link is an indented empty `link` tag |
| XmlWriter.UrlLinkIsTag | pdf2xml/pdf2xml.cpp:416-420 | a URL link is an indented empty `link` tag with href |
| XmlWriter.ImageBlockIsTag | pdf2xml/pdf2xml.cpp:446-450 | an image block is an indented empty `img` tag with src |
| XmlWriter.TextBlockIsElement | pdf2xml/pdf2xml.cpp:431-435 | a text block is a `text` element around the C string of the text |
| XmlWriter.MetatagIsElement | pdf2xml/pdf2xml.cpp:200-312 | a meta tag is an element around the converted value |
| XmlWriter.DocumentOpenReadsBack | pdf2xml/pdf2xml.cpp:513-515 | reading the document tag returns pdf2xml and its page count |
| XmlWriter.PageOpenReadsBack | pdf2xml/pdf2xml.cpp:335-339 | reading the page tag returns its width and height |
| XmlWriter.FontOpenReadsBack | pdf2xml/pdf2xml.cpp:356-386 | for a face without '"', reading the font tag returns its size, its face iff non-empty, and its colour iff non-zero |
| XmlWriter.PageLinkReadsBack | pdf2xml/pdf2xml.cpp:393-408 | reading a page link returns its bounds, page and position |
| XmlWriter.UrlLinkReadsBack | pdf2xml/pdf2xml.cpp:412-423 | for an address without '<', '>', '"' or NUL, reading a URL link returns its bounds and address |
| XmlWriter.TextBlockReadsBack | pdf2xml/pdf2xml.cpp:427-438 | reading a text block returns its bounds, then its text and the close tag |
| XmlWriter.ImageBlockReadsBack | pdf2xml/pdf2xml.cpp:442-453 | for a file name without '<', '>', '"' or NUL, reading an image block returns its bounds and file name |
| XmlWriter.MetatagReadsBack | pdf2xml/pdf2xml.cpp:193-315 | for a tag that is a plain XML name, reading a meta tag returns the tag, then the converted value and the close tag |
| XmlWriter.StartPageNesting | pdf2xml/pdf2xml.cpp:319-342 | after `start_page` exactly the document and the new page are open |
| XmlWriter.ChangeFontNesting | pdf2xml/pdf2xml.cpp:346-389 | after `change_font` a font is open inside the unchanged outer elements |
| XmlWriter.FinishNesting | pdf2xml/pdf2xml.cpp:523-538 | the closing sequence closes every element |
| XmlWriter.BeginNesting | pdf2xml/pdf2xml.cpp:513-518 | the document tag and title leave exactly the document open |
| XmlWriter.ElementNesting | pdf2xml/pdf2xml.cpp:393-453 | a self-contained element leaves the open elements unchanged |
| XmlWriter.XmlOutput.constructor | pdf2xml/pdf2xml.cpp:113-118 | nothing written, no page or font open |
| XmlWriter.XmlOutput.Open | pdf2xml/pdf2xml.cpp:122-129 | the XML declaration is written and nesting is kept |
| XmlWriter.XmlOutput.Write | pdf2xml/pdf2xml.cpp:133-139 | the C string is appended |
| XmlWriter.XmlOutput.WriteInt | pdf2xml/pdf2xml.cpp:143-176 | the decimal spelling is appended |
| XmlWriter.XmlOutput.CloseFont | pdf2xml/pdf2xml.cpp:323-327 | a font close is written iff a font was open, and no font is open after |
| XmlWriter.XmlOutput.ClosePage | pdf2xml/pdf2xml.cpp:329-333 | a page close is written iff a page was open |
| XmlWriter.XmlOutput.WritePageOpen | pdf2xml/pdf2xml.cpp:335-339 | the page tag is appended |
| XmlWriter.XmlOutput.StartPage | pdf2xml/pdf2xml.cpp:319-342 | a font close iff a font was open, a page close iff a page was open, then the page tag; a page and no font are open after, and nesting is kept |
| XmlWriter.XmlOutput.WriteFontOpen | pdf2xml/pdf2xml.cpp:356-386 | the font tag is appended |
| XmlWriter.XmlOutput.ChangeFont | pdf2xml/pdf2xml.cpp:346-389 | a font close iff a font was open, then the font tag; a font is open after; nesting is kept when the face has no '<' or '>' |
| XmlWriter.XmlOutput.AddLink | pdf2xml/pdf2xml.cpp:393-408 | the page link is appended and nesting is kept |
| XmlWriter.XmlOutput.AddLinkUrl | pdf2xml/pdf2xml.cpp:412-423 | the URL link, with the address cut at the first NUL, is appended; nesting is kept when the address has no '<' or '>' |
| XmlWriter.XmlOutput.AddTextBlock | pdf2xml/pdf2xml.cpp:427-438 | the text block is appended; nesting is kept when the text has no '<' |
| XmlWriter.XmlOutput.AddImageBlock | pdf2xml/pdf2xml.cpp:442-453 | the image block is appended; nesting is kept when the name has no '<' or '>' |
| XmlWriter.XmlOutput.AddMetatag | pdf2xml/pdf2xml.cpp:193-315 | an absent value reports an error and writes nothing; otherwise the tag around the converted value is appended; nesting is kept when the tag is a plain XML name |
| XmlWriter.XmlOutput.BeginDocument | pdf2xml/pdf2xml.cpp:513-518 | the document tag and the optional title are appended, and the document is open; nesting is kept when nothing was open before |
| XmlWriter.XmlOutput.Finish | pdf2xml/pdf2xml.cpp:523-538 | the open font, the open page and the document are closed, in that order; nesting is kept when the document was open |
| OutputDevice.AccumulatedFresh | pdf2xml/pdf2xml.cpp:1036-1049 | a new block takes the fragment's rectangle |
| OutputDevice.PictureContent | pdf2xml/pdf2xml.cpp:1219-1448 | a JPEG file gets the raw stream; a PNG file gets the flipped 1-bit or RGB layout |
| OutputDevice.PictureRegistry.constructor | pdf2xml/pdf2xml.cpp:563-565 | no references, number 0, the given base |
| OutputDevice.PictureRegistry.Find | pdf2xml/pdf2xml.cpp:1191-1211 | the first registered entry for the object reference and flip, and the name of its file |
| OutputDevice.PictureRegistry.Enroll | pdf2xml/pdf2xml.cpp:1450-1454 | the number grows by one, and the key is registered iff the image has a reference |
| OutputDevice.PictureRegistry.Add | pdf2xml/pdf2xml.cpp:1229-1454 | the next number is taken and its file name returned, with the registration of `Enroll` |
| OutputDevice.PictureRegistry.Create | pdf2xml/pdf2xml.cpp:1213-1454 | a new file of the selected format under the next number, holding the image's content |
| OutputDevice.PictureRegistry.Produce | pdf2xml/pdf2xml.cpp:1191-1455 | a registered picture is reused with no new file; otherwise the next number, a new file and a registration iff the image has a reference; the registry invariant is kept |
| OutputDevice.Device.constructor | pdf2xml/pdf2xml.cpp:560-571 | the writer and base are taken; no page, no references, number 0, empty non-bold non-italic size-0 font |
| OutputDevice.Device.StartPage | pdf2xml/pdf2xml.cpp:704-733 | the page size is recorded, the previous fragment and font are reset, the pending block is dropped, and the writer starts a page of the rounded size |
| OutputDevice.Device.EnterPage | pdf2xml/pdf2xml.cpp:706-710 | the page state and page size are set |
| OutputDevice.Device.Reset | pdf2xml/pdf2xml.cpp:712-730 | last fragment at -1000, zero rectangle, font reset and dirty, pending block invalid |
| OutputDevice.Device.ForgetFragment | pdf2xml/pdf2xml.cpp:713-721 | last fragment at -1000 with the zero rectangle |
| OutputDevice.Device.ForgetFont | pdf2xml/pdf2xml.cpp:723-728 | the font is reset and marked changed |
| OutputDevice.Device.EndPage | pdf2xml/pdf2xml.cpp:737-741 | the pending block is written iff valid, and the page state is cleared |
| OutputDevice.Device.UpdateFont | pdf2xml/pdf2xml.cpp:745-783 | an unusable or nameless font changes nothing; otherwise the font is taken and marked changed iff bold, italic, size or face differ |
| OutputDevice.Device.Flush | pdf2xml/pdf2xml.cpp:951-958 | the pending block is written iff valid, then invalidated |
| OutputDevice.Device.Invalidate | pdf2xml/pdf2xml.cpp:962-965 | the pending block is invalid |
| OutputDevice.Device.CompareWithCoalesc | pdf2xml/pdf2xml.cpp:969-998 | true iff a block is pending and `SameText` holds |
| OutputDevice.Device.AppendCoalescBlock | pdf2xml/pdf2xml.cpp:1034-1051 | the content is the old (or empty) content, an optional space and the fragment; the rectangle grows from the old (or zero) one |
| OutputDevice.Device.Grow | pdf2xml/pdf2xml.cpp:1036-1049 | the rectangle is the accumulated one |
| OutputDevice.Device.DetectOverprint | pdf2xml/pdf2xml.cpp:883-889 | true iff the fragment overlaps the last rectangle by more than half its surface and repeats the pending text |
| OutputDevice.Device.Arrange | pdf2xml/pdf2xml.cpp:891-913 | append iff joining with an unchanged font, stitch iff joining with a changed font, space iff `PrependsSpace` |
| OutputDevice.Device.NoteStyle | pdf2xml/pdf2xml.cpp:852-881 | italic, colour and size are taken, and the font is marked changed iff one differs |
| OutputDevice.Device.Decide | pdf2xml/pdf2xml.cpp:838-921 | the style, append, space, overprint and stitched rectangle decisions of `drawString` |
| OutputDevice.Device.EndBlock | pdf2xml/pdf2xml.cpp:924-930 | a block that is not appended to is written unless overprinted, and dropped either way |
| OutputDevice.Device.WriteFont | pdf2xml/pdf2xml.cpp:932-937 | a changed font is written and marked clean |
| OutputDevice.Device.Close | pdf2xml/pdf2xml.cpp:923-937 | `EndBlock` and then `WriteFont` |
| OutputDevice.Device.Place | pdf2xml/pdf2xml.cpp:923-939 | `Close` and then the fragment joins or starts the pending block |
| OutputDevice.Device.NoteFragment | pdf2xml/pdf2xml.cpp:941-946 | the fragment's geometry becomes the previous fragment |
| OutputDevice.Device.Commit | pdf2xml/pdf2xml.cpp:923-946 | `Place` and then `NoteFragment` |
| OutputDevice.Device.DrawFragment | pdf2xml/pdf2xml.cpp:815-947 | for a non-blank fragment, the decisions and their effect on the output, the pending block, the font and the previous fragment |
| OutputDevice.Device.DrawString | pdf2xml/pdf2xml.cpp:787-947 | a blank fragment changes nothing; otherwise as `DrawFragment`; nesting is kept for text without '<' |
| OutputDevice.Device.AppendImageBlock | pdf2xml/pdf2xml.cpp:1002-1030 | the pending block is flushed, then the image block with the relative name is written |
| OutputDevice.Device.DrawImageOrMask | pdf2xml/pdf2xml.cpp:1154-1458 | orientation, reuse or creation of the picture file, registry update, and the image block at the rounded rectangle |
| OutputDevice.Device.DrawLink | pdf2xml/pdf2xml.cpp:585-700 | on a page and for a valid link, the resolved link's text is written; nothing otherwise |

## Left out

- I/O: files are strings and byte sequences; `fopen`, `fwrite`, `fputc`, `fclose` and `fflush` always succeed.
- XmlWriter.XmlOutput.Open: drops the `fopen` failure of pdf2xml.cpp:124-125, where the source returns true and writes nothing. The model always writes the XML declaration.
- XmlWriter.XmlOutput.AddTextBlock, XmlWriter.XmlOutput.AddImageBlock: pdf2xml.h:123-131 says an error occurs when there is no current page, but pdf2xml.cpp:427-453 never tests `page_opened`. The model follows the code and writes the element whatever the page state.
- XmlWriter.XmlOutput.StartPage: drops the error result of `fwrite` that every writer method reports ("returns true on error"). The same holds for ChangeFont, AddLink, AddLinkUrl, AddTextBlock, AddImageBlock, Write, WriteInt and Finish: all writes succeed.
- XmlWriter.XmlOutput.AddMetatag: its result reports only a missing value, not a failed write.
- OutputDevice.Device.DrawString: requires coordinates and sizes within +-2^28 (`Fits`). With these bounds every rectangle stays a printable 32-bit value, so the C++ `int` overflow is not modelled. Inputs beyond the bound, such as x = 3.0e8, which the source rounds and writes normally, are outside the model.
- OutputDevice.Device.Valid: requires the kept rectangles within +-2^29 and the font size a printable 32-bit int, for the same reason.
- OutputDevice.Device.StartPage: requires a page size whose rounded value is a printable 32-bit int (`Printable`). The wrap-around of an out-of-range `(int)` conversion is not modelled.
- OutputDevice.Device.DrawImageOrMask: requires the rounded image rectangle printable, for the same reason.
- OutputDevice.Device.DrawLink: requires the resolved link printable, for the same reason.
- Geometry.Rect.Surface: computes on unbounded integers, so `width * height` never overflows.
- Numbers.FormatInt: excludes INT_MIN, whose negation overflows in the source.
- Coalesce.Overprints: compares on exact reals; the source compares a `float` surface with a `double` half surface (`(float)rinter.surface() > 0.5*rect.surface()`). Floating-point rounding is not modelled.
- Numeric.Round: works on exact reals rather than doubles; `(int)` of a value outside the int range is not modelled.
- OutputDevice.Holds: states that a JPEG file holds the raw stream. The source still numbers and registers the picture, and writes the image element, when `fopen` of the JPEG file fails (pdf2xml.cpp:1231-1251); the model does not represent that missing file.
- OutputDevice.PictureRegistry.Create: a PNG file is modelled by the buffer handed to `save_png`. The libpng encoding and its failures are not modelled.
- OutputDevice.Device.constructor: gives initial values to `dev_coalesc_valid`, `dev_font_has_changed`, `dev_current_font_color`, `last_*` and `dev_coalesc_rect`, which the C++ constructor leaves uninitialised. The model behaves like the source only once `startPage` has run, which the renderer does before any drawing call.
- Links.ResolveLink: assumes the document catalog is present. The `catalog != NULL` test is dropped; the renderer always passes the document's catalog.
- TextEncoding.Utf8WellFormed: does not state full RFC 3629 section 3 well-formedness. UTF-16 surrogate units are encoded one by one (`SurrogateUnitEncoding`), so a surrogate pair comes out as two 3-byte sequences starting 0xED 0xA0..0xBF, which RFC 3629 does not allow; the source writes exactly these bytes.
- Raster.PixelColor: pads a short pixel sequence with black. In the source the colour map and image stream always supply `width` pixels per row.
- `handle_string` (glyph decoding, string widths and the conversion to UTF-8): calls into the renderer's fonts. The fragment text and its measured size are parameters of `DrawString`.
- `getNextChar`, `textTransformDelta`, `transform`, `getFillRGB`: the renderer's floating-point geometry and colour state reach the device as parameters.
- `load_from_pdf` (PDF opening, permissions, `displayPages`, the title lookup) and `main`'s usage text and exit codes: these belong to the renderer and the process. Only the document-level writes (`BeginDocument`, `Finish`) and `main`'s file names (`OutputNames`) are modelled.
- `save_png`, `file_write_data`, `file_flush_data`: libpng calls.
- `~MbpOutputDev` and allocation failure (`new` returning NULL): memory management is not modelled.
