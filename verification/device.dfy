/**
 * `MbpOutputDev`: the output device the renderer drives page by page. It
 * coalesces the text fragments it is handed into text blocks, tracks the
 * current font, writes each picture to a file once per image object and
 * flip, and turns link annotations into link elements, all through the
 * `XmlOutput` writer it was given.
 *
 * The renderer's floating-point geometry (transforms, string widths, space
 * widths, fill colours) reaches the device as parameters.
 */
module OutputDevice {
  import opened Wrappers
  import opened Geometry
  import opened Numeric
  import opened XmlWriter
  import Markup
  import opened Coalesce
  import Pictures
  import Links
  import Raster

  /**
   * Coordinates and sizes handed to the device stay within +-2^28, so
   * that every rectangle it builds from them, stitched or enlarged, has
   * 32-bit sides the writer can print.
   */
  const Limit := 0x1000_0000

  /** The bound 2^28 as a real. */
  const RealLimit: real := 268435456.0

  predicate Fits(v: real) { -RealLimit <= v < RealLimit }

  /** A value that fits rounds to within +-2^28. */
  lemma RoundFits(v: real)
    requires Fits(v)
    ensures -Limit <= Round(v) <= Limit
  {
  }

  /** All four edges of the rectangle lie within +-2^29. */
  predicate Within(r: Rect)
  {
    && -2 * Limit <= r.x <= 2 * Limit && -2 * Limit <= r.Right() <= 2 * Limit
    && -2 * Limit <= r.y <= 2 * Limit && -2 * Limit <= r.Bottom() <= 2 * Limit
  }

  /** The zero rectangle lies within the bounds. */
  lemma ZeroWithin()
    ensures Within(Zero)
  {
  }

  lemma WithinPrintable(r: Rect)
    requires Within(r)
    ensures PrintableRect(r)
  {
  }

  /** Enlarging keeps the edges between the extreme edges of both rectangles. */
  lemma EnlargeWithin(a: Rect, c: Rect)
    requires Within(a) && Within(c)
    ensures Within(a.EnlargeToContain(c))
  {
  }

  /**
   * The rectangle of the pending block once a fragment joins it: the
   * block's own rectangle when the block is kept, the zero rectangle when a
   * new block starts, grown to contain the fragment's.
   */
  function Accumulated(kept: bool, block: Rect, rect: Rect): Rect
  {
    (if kept then block else Zero).EnlargeToContain(rect)
  }

  /** A new block takes the fragment's rectangle as its own. */
  lemma AccumulatedFresh(block: Rect, rect: Rect)
    ensures Accumulated(false, block, rect) == rect
  {
    EnlargeZero(rect);
  }

  /** Appending two pieces of text one after the other appends their concatenation. */
  lemma Regroup(a: string, b: string, c: string)
    ensures a + b + c == a + (b + c)
  {
  }

  /** A character absent from a string is absent from its C string. */
  lemma CStringKeepsOut(s: string, c: char)
    requires c !in s
    ensures c !in CString(s)
  {
  }

  /** The font of the renderer, with its `isOk` and its possibly missing name. */
  datatype Font = Font(ok: bool, name: Option<string>, bold: bool, italic: bool)

  /** A picture file the device writes: its name, its format and the bytes handed to the file writer. */
  datatype PictureFile = PictureFile(name: string, format: Pictures.ImageFormat, content: seq<bv8>)

  /** The rectangle of a picture block: rounded corner and rounded extent. */
  function ImageRect(o: Pictures.Orientation): Rect
  {
    Rect(Round(o.x1), Round(o.y1), Round(o.x2 - o.x1), Round(o.y2 - o.y1))
  }

  /**
   * The 1-bit buffer handed to the PNG writer: pixel (y, x) of the image
   * lands at the mirrored row and column of the picture.
   */
  ghost predicate MonochromeLayout(content: seq<bv8>, src: seq<bv8>, width: nat, height: nat, flipX: bool, flipY: bool)
  {
    && |content| == Raster.Stride(width) * height
    && forall y, x :: 0 <= y < height && 0 <= x < width ==>
         Raster.RowBit(content, Raster.Stride(width), Raster.Mirror(flipY, height, y), Raster.Mirror(flipX, width, x))
           == Raster.BitOf(Raster.StreamByte(src, y * Raster.Stride(width) + x / 8), x % 8)
  }

  /** The RGB buffer handed to the PNG writer: pixel (y, x) lands at its mirrored cell. */
  ghost predicate RgbLayout(content: seq<bv8>, pixels: seq<Rgb>, width: nat, height: nat, flipX: bool, flipY: bool)
  {
    && |content| == width * height * 3
    && forall y, x :: 0 <= y < height && 0 <= x < width ==>
         Raster.HoldsPixel(content, Raster.Target(flipX, flipY, width, height, y, x), Raster.PixelColor(pixels, y * width + x))
  }

  /** What a new picture file holds, by format: the raw DCT stream for a JPEG file, a laid-out buffer otherwise. */
  ghost predicate Holds(format: Pictures.ImageFormat, content: seq<bv8>, raw: seq<bv8>, decoded: seq<bv8>, pixels: seq<Rgb>,
                        width: nat, height: nat, flipX: bool, flipY: bool)
  {
    match format
    case Jpeg => content == raw
    case MonochromePng => MonochromeLayout(content, decoded, width, height, flipX, flipY)
    case RgbPng => RgbLayout(content, pixels, width, height, flipX, flipY)
  }

  /**
   * The bytes of a new picture file, by format: the raw DCT stream is
   * copied for a JPEG file; a PNG file gets the 1-bit or RGB buffer laid
   * out with the picture's flips.
   */
  method PictureContent(format: Pictures.ImageFormat, raw: seq<bv8>, decoded: seq<bv8>, pixels: seq<Rgb>,
                        width: nat, height: nat, flipX: bool, flipY: bool)
    returns (content: seq<bv8>)
    ensures Holds(format, content, raw, decoded, pixels, width, height, flipX, flipY)
  {
    match format {
      case Jpeg =>
        content := raw;
      case MonochromePng =>
        var data := Raster.MonochromeImage(decoded, width, height, flipX, flipY);
        content := data[..];
      case RgbPng =>
        var data := Raster.ReadRgb(pixels, width, height, flipX, flipY);
        content := data[..];
    }
  }

  /**
   * The pictures of the output device: `dev_picture_base`,
   * `dev_picture_number` and `dev_picture_references`, kept together in an
   * object of their own that the device owns. The registry maps an image
   * object and a flip code to the number of the picture file drawn from it.
   */
  class PictureRegistry {
    /** `dev_picture_base`: the path prefix of the picture files. */
    const base: string
    /** `dev_picture_references`: the pictures drawn from image objects with a reference. */
    var references: seq<Pictures.PictureReference>
    /** `dev_picture_number`: the number of the last picture file. */
    var number: int

    /** Numbers grow along the registry and no two entries share an object number and flip code. */
    ghost predicate Valid()
      reads this
    {
      Pictures.Registry(references, number)
    }

    /** No picture yet. */
    constructor (pictureBaseName: string)
      ensures base == pictureBaseName && references == [] && number == 0
      ensures Valid()
    {
      base := pictureBaseName;
      references := [];
      number := 0;
    }

    /**
     * The picture file of `drawImageOrMask`: the file registered for the
     * same image object and flip when there is one; otherwise the next
     * picture number, a file of the selected format holding the image,
     * and, for an image object with a reference, a new registry entry.
     */
    method Produce(ref: Option<int>, o: Pictures.Orientation,
                   isDct: bool, numComps: int, bits: int, inlineImg: bool, mask: bool,
                   width: nat, height: nat, raw: seq<bv8>, decoded: seq<bv8>, pixels: seq<Rgb>)
      returns (picFile: string, picture: Option<PictureFile>)
      requires Valid() && 0 <= o.flip <= 3
      modifies this
      ensures var format := Pictures.SelectFormat(isDct, mask, numComps, bits, inlineImg);
        var drawn := Pictures.Drawn(old(references), old(number), ref, o.flip, format);
        && picFile == Pictures.PictureName(base, old(references), old(number), ref, o.flip, format)
        && references == drawn.0 && number == drawn.1
        && (picture.None? <==> ref.Some? && Pictures.FirstMatch(old(references), ref.value, o.flip).Some?)
        && (picture.Some? ==>
              && picture.value.name == picFile && picture.value.format == format
              && Holds(picture.value.format, picture.value.content, raw, decoded, pixels, width, height, o.flipX, o.flipY))
      ensures Valid()
    {
      picture := None;
      var reference := if ref.Some? then ref.value else -1;
      var found;
      picFile, found := Find(ref, o.flip);
      if found.None? {
        picFile, picture := Create(reference, o, Pictures.SelectFormat(isDct, mask, numComps, bits, inlineImg),
                                   width, height, raw, decoded, pixels);
      }
    }

    /**
     * A picture drawn for the first time: it takes the next number and is
     * registered under it, and its file holds the image in the given
     * format.
     */
    method Create(reference: int, o: Pictures.Orientation, format: Pictures.ImageFormat,
                  width: nat, height: nat, raw: seq<bv8>, decoded: seq<bv8>, pixels: seq<Rgb>)
      returns (picFile: string, picture: Option<PictureFile>)
      requires Valid() && 0 <= o.flip <= 3
      requires reference != -1 ==> Pictures.FirstMatch(references, reference, o.flip).None?
      modifies this
      ensures picFile == Pictures.NextName(base, old(number), format)
      ensures number == old(number) + 1
      ensures references == old(references)
        + (if reference != -1 then [Pictures.PictureReference(reference, o.flip, number, Pictures.Extension(format))] else [])
      ensures picture.Some? && picture.value.name == picFile && picture.value.format == format
      ensures Holds(picture.value.format, picture.value.content, raw, decoded, pixels, width, height, o.flipX, o.flipY)
      ensures Valid()
    {
      picFile := Add(reference, o.flip, format);
      var content := PictureContent(format, raw, decoded, pixels, width, height, o.flipX, o.flipY);
      picture := Some(PictureFile(picFile, format, content));
    }

    /**
     * The registry lookup of `drawImageOrMask`: for an image object with a
     * reference, the file name of the first entry with its object number
     * and flip code; the empty name when there is none.
     */
    method Find(ref: Option<int>, flip: int) returns (picFile: string, found: Option<nat>)
      requires Valid()
      ensures found == if ref.Some? then Pictures.FirstMatch(references, ref.value, flip) else None
      ensures found.Some? ==> found.value < |references|
      ensures picFile == if found.Some? then Pictures.RegisteredName(base, references, found.value) else ""
    {
      picFile := "";
      found := None;
      if ref.Some? {
        found := Pictures.LookupPicture(references, ref.value, flip);
        if found.Some? {
          var entry := references[found.value];
          picFile := Pictures.ComposeImageFilename(base, entry.pictureNumber, entry.pictureExtension);
        }
      }
    }

    /**
     * A picture that is not in the registry takes the next number, and
     * its file name is composed from it; an image object with a reference
     * is registered under that number.
     */
    method Add(reference: int, flip: int, format: Pictures.ImageFormat) returns (picFile: string)
      requires Valid() && 0 <= flip <= 3
      requires reference != -1 ==> Pictures.FirstMatch(references, reference, flip).None?
      modifies this
      ensures number == old(number) + 1
      ensures picFile == Pictures.ImageFilename(base, number, Pictures.Extension(format))
      ensures references == old(references)
        + (if reference != -1 then [Pictures.PictureReference(reference, flip, number, Pictures.Extension(format))] else [])
      ensures Valid()
    {
      Enroll(reference, flip, format);
      picFile := Pictures.ComposeImageFilename(base, number, Pictures.Extension(format));
    }

    /**
     * The registry side of a new picture: the next picture number is taken
     * and, for an image object with a reference, an entry for it is appended.
     */
    method Enroll(reference: int, flip: int, format: Pictures.ImageFormat)
      requires Valid() && 0 <= flip <= 3
      requires reference != -1 ==> Pictures.FirstMatch(references, reference, flip).None?
      modifies this
      ensures number == old(number) + 1
      ensures references == old(references)
        + (if reference != -1 then [Pictures.PictureReference(reference, flip, number, Pictures.Extension(format))] else [])
      ensures Valid()
    {
      if reference != -1 {
        Pictures.RegisterKeepsRegistry(references, number, reference, flip, format);
        references, number := references + [Pictures.PictureReference(reference, flip, number + 1, Pictures.Extension(format))], number + 1;
      } else {
        Pictures.NumberKeepsRegistry(references, number);
        number := number + 1;
      }
    }
  }

  class Device {
    /** `dev_output`: the writer, shared with the caller. */
    const output: XmlOutput
    /** The picture base, number and references. */
    const pictures: PictureRegistry
    /** `dev_page_state != NULL`: a page is being drawn. */
    var pageStateSet: bool
    var lastPageW: real
    var lastPageH: real

    var fontHasChanged: bool
    var currentFontFace: string
    var currentFontBold: bool
    var currentFontItalic: bool
    var currentFontSize: int
    var currentFontColor: int

    /** Geometry of the previous fragment. */
    var lastX: real
    var lastY: real
    var lastW: real
    var lastH: real
    var lastRect: Rect

    /** The pending text block. */
    var coalescContent: string
    var coalescRect: Rect
    var coalescValid: bool

    /**
     * The device invariant: the rectangles it keeps can be printed, the
     * previous fragment's rounded position fits, and the font size can be
     * printed. The picture registry keeps an invariant of its own,
     * `pictures.Valid()`; only `drawImageOrMask` changes the registry.
     */
    ghost predicate Valid()
      reads this
    {
      && Within(coalescRect) && Within(lastRect) && Fits(lastX) && Fits(lastW)
      && Printable(currentFontSize)
    }

    /**
     * The document stays well nested: the writer's elements nest, and
     * nothing the device will write later (pending text, font face,
     * picture names) holds markup.
     */
    ghost predicate Tidy()
      reads this, output
    {
      output.Nested() && Clean()
    }

    /** No markup in the pending text, the font face or the picture base. */
    ghost predicate Clean()
      reads this
    {
      && '<' !in coalescContent
      && Markup.MarkupFree(CString(currentFontFace)) && Markup.MarkupFree(pictures.base)
    }

    /**
     * The device starts outside any page, with an empty registry and
     * plain, size-0 font state. The fields the C++ constructor leaves
     * uninitialised get the values `startPage` gives them.
     */
    constructor (target: XmlOutput, pictureBaseName: string)
      ensures output == target && fresh(pictures) && pictures.base == pictureBaseName
      ensures !pageStateSet && pictures.references == [] && pictures.number == 0
      ensures currentFontFace == "" && !currentFontBold && !currentFontItalic && currentFontSize == 0
      ensures !coalescValid
      ensures Valid() && pictures.Valid()
    {
      output := target;
      pageStateSet := false;
      pictures := new PictureRegistry(pictureBaseName);
      currentFontFace := "";
      currentFontBold := false;
      currentFontItalic := false;
      currentFontSize := 0;
      currentFontColor := 0;
      fontHasChanged := true;
      lastPageW, lastPageH := 0.0, 0.0;
      lastX, lastY, lastW, lastH := -1000.0, -1000.0, -1000.0, -1000.0;
      lastRect := Zero;
      coalescContent := "";
      coalescRect := Zero;
      coalescValid := false;
      ZeroWithin();
    }

    /**
     * `startPage`: forgets the previous fragment and the font, drops the
     * pending block unwritten and opens a page element of the rounded
     * page size, closing what the writer had open.
     */
    method StartPage(pageW: real, pageH: real)
      requires Valid() && Printable(Round(pageW)) && Printable(Round(pageH))
      modifies this`pageStateSet, this`lastPageW, this`lastPageH, this`lastX, this`lastY, this`lastW, this`lastH,
        this`lastRect, this`fontHasChanged, this`currentFontBold, this`currentFontItalic, this`currentFontSize,
        this`currentFontColor, this`currentFontFace, this`coalescValid, output
      ensures pageStateSet && lastPageW == pageW && lastPageH == pageH
      ensures lastX == -1000.0 && lastY == -1000.0 && lastW == -1000.0 && lastH == -1000.0 && lastRect == Zero
      ensures fontHasChanged && !currentFontBold && !currentFontItalic && currentFontSize == 0 && currentFontColor == 0
      ensures currentFontFace == "" && !coalescValid
      ensures output.out == old(output.out) + Closings(old(output.pageOpened), old(output.fontOpened)) + PageOpen(Round(pageW), Round(pageH))
      ensures output.pageOpened && !output.fontOpened && output.documentOpened == old(output.documentOpened)
      ensures Valid()
      ensures old(Tidy()) ==> Tidy()
    {
      EnterPage(pageW, pageH);
      Reset();
      output.StartPage(Round(pageW), Round(pageH));
    }

    /** The state `startPage` reinitialises: the previous fragment, the font and the pending block. */
    method Reset()
      requires Valid()
      modifies this`lastX, this`lastY, this`lastW, this`lastH, this`lastRect,
        this`fontHasChanged, this`currentFontBold, this`currentFontItalic, this`currentFontSize,
        this`currentFontColor, this`currentFontFace, this`coalescValid
      ensures lastX == -1000.0 && lastY == -1000.0 && lastW == -1000.0 && lastH == -1000.0 && lastRect == Zero
      ensures fontHasChanged && !currentFontBold && !currentFontItalic && currentFontSize == 0 && currentFontColor == 0
      ensures currentFontFace == "" && !coalescValid
      ensures Valid()
      ensures old(Tidy()) ==> Tidy()
    {
      ForgetFragment();
      ForgetFont();
      Invalidate();
    }

    /** The page state is set and the page size recorded. */
    method EnterPage(pageW: real, pageH: real)
      modifies this`pageStateSet, this`lastPageW, this`lastPageH
      ensures pageStateSet && lastPageW == pageW && lastPageH == pageH
      ensures old(Valid()) ==> Valid()
      ensures old(Tidy()) ==> Tidy()
    {
      pageStateSet := true;
      lastPageW := pageW;
      lastPageH := pageH;
    }

    /** The previous fragment is forgotten: its position and size go back to -1000, its rectangle to zero. */
    method ForgetFragment()
      requires Valid()
      modifies this`lastX, this`lastY, this`lastW, this`lastH, this`lastRect
      ensures lastX == -1000.0 && lastY == -1000.0 && lastW == -1000.0 && lastH == -1000.0 && lastRect == Zero
      ensures Valid()
      ensures old(Tidy()) ==> Tidy()
    {
      lastX, lastY, lastW, lastH := -1000.0, -1000.0, -1000.0, -1000.0;
      lastRect := Zero;
      ZeroWithin();
    }

    /** The current font is forgotten: plain, size 0, black, nameless, and marked changed. */
    method ForgetFont()
      requires Valid()
      modifies this`fontHasChanged, this`currentFontBold, this`currentFontItalic, this`currentFontSize,
        this`currentFontColor, this`currentFontFace
      ensures fontHasChanged && !currentFontBold && !currentFontItalic && currentFontSize == 0 && currentFontColor == 0
      ensures currentFontFace == ""
      ensures Valid()
      ensures old(Tidy()) ==> Tidy()
    {
      fontHasChanged := true;
      currentFontBold := false;
      currentFontItalic := false;
      currentFontSize := 0;
      currentFontColor := 0;
      currentFontFace := "";
    }

    /** `endPage`: writes the pending block, if any, and leaves the page. */
    method EndPage()
      requires Valid()
      modifies this`pageStateSet, this`coalescValid, output
      ensures !pageStateSet && !coalescValid
      ensures output.out == old(output.out) + (if old(coalescValid) then TextBlock(coalescContent, coalescRect) else "")
      ensures output.pageOpened == old(output.pageOpened) && output.fontOpened == old(output.fontOpened)
      ensures output.documentOpened == old(output.documentOpened)
      ensures Valid()
      ensures old(Tidy()) ==> Tidy()
    {
      Flush();
      pageStateSet := false;
    }

    /**
     * `updateFont`: a usable font (valid and named) becomes the current
     * one, and the font is marked changed exactly when its boldness,
     * slant, size or face differs from the current font's. An unusable
     * font changes nothing.
     */
    method UpdateFont(font: Option<Font>, size: int)
      requires Valid() && Printable(size)
      modifies this`fontHasChanged, this`currentFontBold, this`currentFontItalic, this`currentFontSize, this`currentFontFace
      ensures !(font.Some? && font.value.ok && font.value.name.Some?) ==> unchanged(this)
      ensures font.Some? && font.value.ok && font.value.name.Some? ==>
        && currentFontBold == font.value.bold && currentFontItalic == font.value.italic
        && currentFontSize == size && currentFontFace == font.value.name.value
        && (fontHasChanged <==>
              || old(fontHasChanged) || font.value.bold != old(currentFontBold) || font.value.italic != old(currentFontItalic)
              || size != old(currentFontSize) || font.value.name.value != old(currentFontFace))
      ensures Valid()
      ensures old(Tidy()) && (font.Some? && font.value.name.Some? ==> Markup.MarkupFree(CString(font.value.name.value))) ==> Tidy()
    {
      if font.None? || !font.value.ok {
        return;
      }
      var name := font.value.name;
      if name.None? {
        return;
      }
      var bold := font.value.bold;
      var italic := font.value.italic;
      if bold != currentFontBold || italic != currentFontItalic || size != currentFontSize || currentFontFace != name.value {
        fontHasChanged := true;
        currentFontBold := bold;
        currentFontItalic := italic;
        currentFontSize := size;
        currentFontFace := name.value;
      }
    }

    /** `flush_coalesc_blocks`: writes the pending block when there is one; the block is then gone. */
    method Flush()
      requires Valid()
      modifies this`coalescValid, output
      ensures !coalescValid
      ensures output.out == old(output.out) + (if old(coalescValid) then TextBlock(coalescContent, coalescRect) else "")
      ensures output.pageOpened == old(output.pageOpened) && output.fontOpened == old(output.fontOpened)
      ensures output.documentOpened == old(output.documentOpened)
      ensures Valid()
      ensures old(Tidy()) ==> Tidy()
    {
      if coalescValid {
        WithinPrintable(coalescRect);
        if '<' !in coalescContent {
          CStringKeepsOut(coalescContent, '<');
        }
        output.AddTextBlock(coalescContent, coalescRect);
      }
      Invalidate();
    }

    /** `invalidate_coalesc_blocks`: drops the pending block unwritten. */
    method Invalidate()
      modifies this`coalescValid
      ensures !coalescValid
      ensures old(Valid()) ==> Valid()
      ensures old(Tidy()) ==> Tidy()
    {
      coalescValid := false;
    }

    /**
     * `compare_with_coalesc`: the fragment's text is the pending block's,
     * spaces aside; false when no block is pending.
     */
    method CompareWithCoalesc(str: string) returns (same: bool)
      ensures same <==> coalescValid && SameText(str, coalescContent)
    {
      if !coalescValid {
        return false;
      }
      var s, t := str, coalescContent;
      var i, j := 0, 0;
      ghost var mismatch := false;
      while i < |s| && j < |t|
        invariant 0 <= i <= |s| && 0 <= j <= |t|
        invariant Strip(s[..i]) == Strip(t[..j])
        invariant (i > 0 && s[i - 1] == ' ') ==> (j < |t| || i < |s|)
        invariant (j > 0 && t[j - 1] == ' ') ==> (i < |s| && s[i] != ' ')
      {
        if s[i] == ' ' {
          StripSnoc(s, i);
          i := i + 1;
        } else if t[j] == ' ' {
          StripSnoc(t, j);
          j := j + 1;
        } else if s[i] == t[j] {
          StripSnoc(s, i);
          StripSnoc(t, j);
          i, j := i + 1, j + 1;
        } else {
          mismatch := true;
          break;
        }
      }
      ScanOutcome(s, t, i, j, mismatch);
      same := i == |s| && j == |t|;
    }

    /**
     * `append_coalesc_block`: the fragment, after a space when asked,
     * extends the pending block, or starts a new one from empty text and
     * the zero rectangle; the block's rectangle grows to contain the
     * fragment's.
     */
    method AppendCoalescBlock(str: string, rect: Rect, prependSpace: bool)
      requires Valid() && Within(rect)
      modifies this`coalescContent, this`coalescRect, this`coalescValid
      ensures coalescValid
      ensures coalescContent == (if old(coalescValid) then old(coalescContent) else "") + (if prependSpace then " " else "") + str
      ensures coalescRect == Accumulated(old(coalescValid), old(coalescRect), rect)
      ensures Valid()
      ensures old('<' !in coalescContent) && '<' !in str ==> '<' !in coalescContent
    {
      Grow(coalescValid, rect);
      if !coalescValid {
        coalescContent := "";
      }
      if prependSpace {
        coalescContent := coalescContent + " ";
      }
      coalescContent := coalescContent + str;
      coalescValid := true;
    }

    /** The pending block's rectangle, kept or restarted from zero, grows to contain the fragment's, staying within bounds. */
    method Grow(kept: bool, rect: Rect)
      requires Within(coalescRect) && Within(rect)
      modifies this`coalescRect
      ensures coalescRect == Accumulated(kept, old(coalescRect), rect)
      ensures Within(coalescRect)
    {
      EnlargeWithin(if kept then coalescRect else Zero, rect);
      coalescRect := Accumulated(kept, coalescRect, rect);
    }

    /**
     * The end of `drawString`: unless the fragment is appended, the
     * pending block is written, or dropped when the fragment overprints
     * it; then a pending font change is written as a font element; then
     * the fragment goes into the pending block.
     */
    method Place(text: string, rect: Rect, append: bool, overprint: bool, prependSpace: bool)
      requires Valid() && Within(rect)
      modifies this`coalescContent, this`coalescRect, this`coalescValid, this`fontHasChanged, output
      ensures output.out == old(output.out)
        + (if !append && !overprint && old(coalescValid) then TextBlock(old(coalescContent), old(coalescRect)) else "")
        + (if old(fontHasChanged) then Closings(false, old(output.fontOpened))
             + FontOpen(currentFontFace, currentFontSize, currentFontColor, currentFontBold, currentFontItalic) else "")
      ensures var kept := append && old(coalescValid);
        && coalescContent == (if kept then old(coalescContent) else "") + (if prependSpace then " " else "") + text
        && coalescRect == Accumulated(kept, old(coalescRect), rect)
      ensures coalescValid && !fontHasChanged
      ensures output.fontOpened == (old(fontHasChanged) || old(output.fontOpened))
      ensures output.pageOpened == old(output.pageOpened) && output.documentOpened == old(output.documentOpened)
      ensures Valid()
      ensures old(Tidy()) && '<' !in text ==> Tidy()
    {
      Close(append, overprint);
      AppendCoalescBlock(text, rect, prependSpace);
    }

    /**
     * The part of `drawString` before the fragment is placed: the pending
     * block is ended, then a pending font change is written.
     */
    method Close(append: bool, overprint: bool)
      requires Valid()
      modifies this`coalescValid, this`fontHasChanged, output
      ensures output.out == old(output.out)
        + (if !append && !overprint && old(coalescValid) then TextBlock(old(coalescContent), old(coalescRect)) else "")
        + (if old(fontHasChanged) then Closings(false, old(output.fontOpened))
             + FontOpen(currentFontFace, currentFontSize, currentFontColor, currentFontBold, currentFontItalic) else "")
      ensures coalescValid == (append && old(coalescValid)) && !fontHasChanged
      ensures output.fontOpened == (old(fontHasChanged) || old(output.fontOpened))
      ensures output.pageOpened == old(output.pageOpened) && output.documentOpened == old(output.documentOpened)
      ensures Valid()
      ensures old(Tidy()) ==> Tidy()
    {
      EndBlock(append, overprint);
      WriteFont();
    }

    /** Unless the fragment is appended, the pending block is written, or dropped when the fragment overprints it. */
    method EndBlock(append: bool, overprint: bool)
      requires Valid()
      modifies this`coalescValid, output
      ensures output.out == old(output.out) + (if !append && !overprint && old(coalescValid) then TextBlock(coalescContent, coalescRect) else "")
      ensures coalescValid == (append && old(coalescValid))
      ensures output.pageOpened == old(output.pageOpened) && output.fontOpened == old(output.fontOpened)
      ensures output.documentOpened == old(output.documentOpened)
      ensures Valid()
      ensures old(Tidy()) ==> Tidy()
    {
      if !append {
        if overprint {
          Invalidate();
        } else {
          Flush();
        }
      }
    }

    /** A pending font change is written as a font element. */
    method WriteFont()
      requires Valid()
      modifies this`fontHasChanged, output
      ensures output.out == old(output.out) + (if old(fontHasChanged) then Closings(false, old(output.fontOpened))
             + FontOpen(currentFontFace, currentFontSize, currentFontColor, currentFontBold, currentFontItalic) else "")
      ensures !fontHasChanged
      ensures output.fontOpened == (old(fontHasChanged) || old(output.fontOpened))
      ensures output.pageOpened == old(output.pageOpened) && output.documentOpened == old(output.documentOpened)
      ensures Valid()
      ensures old(Tidy()) ==> Tidy()
    {
      if fontHasChanged {
        fontHasChanged := false;
        ghost var before := output.out;
        output.ChangeFont(currentFontFace, currentFontSize, currentFontColor, currentFontBold, currentFontItalic);
        Regroup(before, Closings(false, old(output.fontOpened)), FontOpen(currentFontFace, currentFontSize, currentFontColor, currentFontBold, currentFontItalic));
      }
    }

    /**
     * `drawString`, from the point where the fragment's text, size,
     * position, slant, space width, size and fill colour are known. A
     * blank fragment changes nothing. Otherwise the slant, colour and size
     * become current (marking the font changed when they differ); the
     * fragment joins the pending block when it continues the previous
     * fragment, by appending when the font is unchanged and by stitching
     * (a new block from the end of the previous fragment) when it
     * changed; a new block flushes the pending one, or drops it when the
     * fragment overprints it; a changed font is written before the
     * fragment; and the fragment becomes the previous one.
     */
    method DrawString(text: string, x: real, y: real, width: real, height: real, space: real,
                      italic: bool, size: int, fill: Rgb)
      returns (ghost dirty: bool, ghost append: bool, ghost overprint: bool, ghost prependSpace: bool, ghost placed: Rect)
      requires Valid() && Printable(size)
      requires Fits(x) && Fits(y) && Fits(width) && Fits(height)
      modifies this`currentFontItalic, this`currentFontColor, this`currentFontSize, this`fontHasChanged,
        this`coalescContent, this`coalescRect, this`coalescValid,
        this`lastX, this`lastY, this`lastW, this`lastH, this`lastRect, output
      ensures Blank(text) ==> unchanged(this) && unchanged(output)
      // the decisions
      ensures !Blank(text) ==>
        dirty == (old(fontHasChanged) || italic != old(currentFontItalic) || PackColor(fill) != old(currentFontColor)
                  || size != old(currentFontSize))
      ensures !Blank(text) ==>
        var spacing := Spacing(x, old(lastX), old(lastW));
        var joins := Joins(y, height, old(lastY), old(lastH), spacing, space);
        && append == (joins && !dirty)
        && prependSpace == PrependsSpace(y, height, old(lastY), old(lastH), spacing, space)
        && placed == (if joins && dirty then Stitched(FragmentRect(x, y, width, height), old(lastX), old(lastW))
                      else FragmentRect(x, y, width, height))
      ensures !Blank(text) ==>
        overprint == Overprints(FragmentRect(x, y, width, height), old(lastRect), old(coalescValid) && SameText(text, old(coalescContent)))
      // their effect
      ensures !Blank(text) ==>
        output.out == old(output.out)
          + (if !append && !overprint && old(coalescValid) then TextBlock(old(coalescContent), old(coalescRect)) else "")
          + (if dirty then Closings(false, old(output.fontOpened))
               + FontOpen(currentFontFace, currentFontSize, currentFontColor, currentFontBold, currentFontItalic) else "")
      ensures !Blank(text) ==>
        && coalescValid
        && coalescContent == (if append && old(coalescValid) then old(coalescContent) else "") + (if prependSpace then " " else "") + text
        && coalescRect == Accumulated(append && old(coalescValid), old(coalescRect), placed)
      ensures !Blank(text) ==>
        && !fontHasChanged && currentFontItalic == italic && currentFontColor == PackColor(fill) && currentFontSize == size
        && lastX == x && lastY == y && lastW == width && lastH == height && lastRect == placed
        && output.fontOpened == (dirty || old(output.fontOpened))
      ensures output.pageOpened == old(output.pageOpened) && output.documentOpened == old(output.documentOpened)
      ensures Valid()
      ensures old(Tidy()) && '<' !in text ==> Tidy()
    {
      dirty, append, overprint, prependSpace, placed := false, false, false, false, Zero;
      var allBlanks := AllBlanks(text);
      if allBlanks {
        return;
      }
      var changed, joinText, shadow, spaceFirst, rect := DrawFragment(text, x, y, width, height, space, italic, size, fill);
      dirty, append, overprint, prependSpace, placed := changed, joinText, shadow, spaceFirst, rect;
    }

    /** `drawString` for a fragment that is not blank. */
    method DrawFragment(text: string, x: real, y: real, width: real, height: real, space: real,
                      italic: bool, size: int, fill: Rgb)
      returns (dirty: bool, append: bool, overprint: bool, prependSpace: bool, placed: Rect)
      requires Valid() && Printable(size) && !Blank(text)
      requires Fits(x) && Fits(y) && Fits(width) && Fits(height)
      modifies this`currentFontItalic, this`currentFontColor, this`currentFontSize, this`fontHasChanged,
        this`coalescContent, this`coalescRect, this`coalescValid,
        this`lastX, this`lastY, this`lastW, this`lastH, this`lastRect, output
      // the decisions
      ensures dirty == (old(fontHasChanged) || italic != old(currentFontItalic) || PackColor(fill) != old(currentFontColor)
                  || size != old(currentFontSize))
      ensures var spacing := Spacing(x, old(lastX), old(lastW));
        var joins := Joins(y, height, old(lastY), old(lastH), spacing, space);
        && append == (joins && !dirty)
        && prependSpace == PrependsSpace(y, height, old(lastY), old(lastH), spacing, space)
        && placed == (if joins && dirty then Stitched(FragmentRect(x, y, width, height), old(lastX), old(lastW))
                      else FragmentRect(x, y, width, height))
      ensures overprint == Overprints(FragmentRect(x, y, width, height), old(lastRect), old(coalescValid) && SameText(text, old(coalescContent)))
      // their effect
      ensures output.out == old(output.out)
          + (if !append && !overprint && old(coalescValid) then TextBlock(old(coalescContent), old(coalescRect)) else "")
          + (if dirty then Closings(false, old(output.fontOpened))
               + FontOpen(currentFontFace, currentFontSize, currentFontColor, currentFontBold, currentFontItalic) else "")
      ensures && coalescValid
        && coalescContent == (if append && old(coalescValid) then old(coalescContent) else "") + (if prependSpace then " " else "") + text
        && coalescRect == Accumulated(append && old(coalescValid), old(coalescRect), placed)
      ensures && !fontHasChanged && currentFontItalic == italic && currentFontColor == PackColor(fill) && currentFontSize == size
        && lastX == x && lastY == y && lastW == width && lastH == height && lastRect == placed
        && output.fontOpened == (dirty || old(output.fontOpened))
      ensures output.pageOpened == old(output.pageOpened) && output.documentOpened == old(output.documentOpened)
      ensures Valid()
      ensures old(Tidy()) && '<' !in text ==> Tidy()
    {
      dirty, append, overprint, prependSpace, placed := Decide(text, x, y, width, height, space, italic, size, fill);
      assert coalescContent == old(coalescContent) && coalescRect == old(coalescRect) && coalescValid == old(coalescValid);
      assert output.out == old(output.out) && output.fontOpened == old(output.fontOpened);
      Commit(text, x, y, width, height, placed, append, overprint, prependSpace);
    }

    /** The fragment is placed, and becomes the previous one. */
    method Commit(text: string, x: real, y: real, width: real, height: real, rect: Rect,
                  append: bool, overprint: bool, prependSpace: bool)
      requires Valid() && Fits(x) && Fits(width) && Within(rect)
      modifies this`coalescContent, this`coalescRect, this`coalescValid, this`fontHasChanged,
        this`lastX, this`lastY, this`lastW, this`lastH, this`lastRect, output
      ensures output.out == old(output.out)
        + (if !append && !overprint && old(coalescValid) then TextBlock(old(coalescContent), old(coalescRect)) else "")
        + (if old(fontHasChanged) then Closings(false, old(output.fontOpened))
             + FontOpen(currentFontFace, currentFontSize, currentFontColor, currentFontBold, currentFontItalic) else "")
      ensures var kept := append && old(coalescValid);
        && coalescContent == (if kept then old(coalescContent) else "") + (if prependSpace then " " else "") + text
        && coalescRect == Accumulated(kept, old(coalescRect), rect)
      ensures coalescValid && !fontHasChanged
      ensures lastX == x && lastY == y && lastW == width && lastH == height && lastRect == rect
      ensures output.fontOpened == (old(fontHasChanged) || old(output.fontOpened))
      ensures output.pageOpened == old(output.pageOpened) && output.documentOpened == old(output.documentOpened)
      ensures Valid()
      ensures old(Tidy()) && '<' !in text ==> Tidy()
    {
      Place(text, rect, append, overprint, prependSpace);
      NoteFragment(x, y, width, height, rect);
    }

    /**
     * The decisions of `drawString` for a fragment that is not blank: the
     * style becomes current, then the fragment is tested for overprinting
     * the pending block and for continuing the previous fragment, and its
     * rectangle is stitched when it continues it in a changed font.
     */
    method Decide(text: string, x: real, y: real, width: real, height: real, space: real,
                  italic: bool, size: int, fill: Rgb)
      returns (dirty: bool, append: bool, overprint: bool, prependSpace: bool, placed: Rect)
      requires Valid() && Printable(size)
      requires Fits(x) && Fits(y) && Fits(width) && Fits(height)
      modifies this`currentFontItalic, this`currentFontColor, this`currentFontSize, this`fontHasChanged
      ensures dirty == (old(fontHasChanged) || italic != old(currentFontItalic) || PackColor(fill) != old(currentFontColor)
                        || size != old(currentFontSize))
      ensures var spacing := Spacing(x, old(lastX), old(lastW));
        var joins := Joins(y, height, old(lastY), old(lastH), spacing, space);
        && append == (joins && !dirty)
        && prependSpace == PrependsSpace(y, height, old(lastY), old(lastH), spacing, space)
        && placed == (if joins && dirty then Stitched(FragmentRect(x, y, width, height), old(lastX), old(lastW))
                      else FragmentRect(x, y, width, height))
      ensures overprint == Overprints(FragmentRect(x, y, width, height), old(lastRect), old(coalescValid) && SameText(text, old(coalescContent)))
      ensures fontHasChanged == dirty
      ensures currentFontItalic == italic && currentFontColor == PackColor(fill) && currentFontSize == size
      ensures Within(placed)
      ensures Valid()
      ensures old(Tidy()) ==> Tidy()
    {
      RoundFits(x);
      RoundFits(y);
      RoundFits(width);
      RoundFits(height);
      RoundFits(lastX);
      RoundFits(lastW);
      var rect := FragmentRect(x, y, width, height);
      NoteStyle(italic, PackColor(fill), size);
      dirty := fontHasChanged;
      overprint := DetectOverprint(text, rect);
      var stitchBlocks;
      append, prependSpace, stitchBlocks := Arrange(x, y, height, space);
      if stitchBlocks {
        rect := Stitched(rect, lastX, lastW);
      }
      placed := rect;
    }

    /**
     * The slant, colour and size of a fragment become current; the font
     * is marked changed when any of them differs from the current one.
     */
    method NoteStyle(italic: bool, color: int, size: int)
      requires Valid() && Printable(size)
      modifies this`currentFontItalic, this`currentFontColor, this`currentFontSize, this`fontHasChanged
      ensures currentFontItalic == italic && currentFontColor == color && currentFontSize == size
      ensures fontHasChanged == (old(fontHasChanged) || italic != old(currentFontItalic)
                                 || color != old(currentFontColor) || size != old(currentFontSize))
      ensures Valid()
      ensures old(Tidy()) ==> Tidy()
    {
      if currentFontItalic != italic {
        currentFontItalic := italic;
        fontHasChanged := true;
      }
      if color != currentFontColor {
        currentFontColor := color;
        fontHasChanged := true;
      }
      if size != currentFontSize {
        currentFontSize := size;
        fontHasChanged := true;
      }
    }

    /**
     * The drop-shadow test of `drawString`: the fragment covers more than
     * half of its surface with the previous fragment's rectangle and its
     * text is the pending block's. The text is only compared when the
     * rectangles overlap enough.
     */
    method DetectOverprint(text: string, rect: Rect) returns (overprint: bool)
      ensures overprint == Overprints(rect, lastRect, coalescValid && SameText(text, coalescContent))
    {
      overprint := false;
      var (hit, inter) := rect.IsIntersecting(lastRect);
      if hit && inter.Surface() as real > 0.5 * rect.Surface() as real {
        var same := CompareWithCoalesc(text);
        if same {
          overprint := true;
        }
      }
    }

    /**
     * How a fragment continues the previous one: it is appended when it
     * joins and the font is unchanged, stitched when it joins and the font
     * changed, and a space goes before it when it joins across a gap of
     * three quarters of a space or more on another baseline.
     */
    method Arrange(x: real, y: real, height: real, space: real) returns (append: bool, prependSpace: bool, stitchBlocks: bool)
      ensures var spacing := Spacing(x, lastX, lastW);
        var joins := Joins(y, height, lastY, lastH, spacing, space);
        && append == (joins && !fontHasChanged) && stitchBlocks == (joins && fontHasChanged)
        && prependSpace == PrependsSpace(y, height, lastY, lastH, spacing, space)
    {
      var spacing := x - (lastX + lastW);
      append, prependSpace, stitchBlocks := false, false, false;
      var horizontalIntersect := (lastY + lastH >= y && lastY + lastH <= y + height) || (y + height >= lastY && y + height <= lastY + lastH);
      if y == lastY && spacing > -space && spacing < 0.75 * space {
        if fontHasChanged {
          stitchBlocks := true;
        } else {
          append := true;
        }
      } else if horizontalIntersect && spacing > -space && spacing < 2.4 * space {
        if fontHasChanged {
          stitchBlocks := true;
        } else {
          append := true;
        }
        if spacing >= 0.75 * space {
          prependSpace := true;
        }
      }
    }

    /** The fragment becomes the previous one. */
    method NoteFragment(x: real, y: real, width: real, height: real, rect: Rect)
      requires Valid() && Fits(x) && Fits(width) && Within(rect)
      modifies this`lastX, this`lastY, this`lastW, this`lastH, this`lastRect
      ensures lastX == x && lastY == y && lastW == width && lastH == height && lastRect == rect
      ensures Valid()
    {
      lastX := x;
      lastY := y;
      lastW := width;
      lastH := height;
      lastRect := rect;
    }

    /**
     * `append_image_block`: flushes the pending text block and writes an
     * image element naming the picture file without its directories.
     */
    method AppendImageBlock(rect: Rect, picFilename: string)
      requires Valid() && PrintableRect(rect)
      modifies this`coalescValid, output
      ensures !coalescValid
      ensures output.out == old(output.out) + (if old(coalescValid) then TextBlock(old(coalescContent), old(coalescRect)) else "")
        + ImageBlock(Pictures.RelativeName(picFilename), rect)
      ensures output.pageOpened == old(output.pageOpened) && output.fontOpened == old(output.fontOpened)
      ensures output.documentOpened == old(output.documentOpened)
      ensures Valid()
      ensures old(Tidy()) && Markup.MarkupFree(Pictures.RelativeName(picFilename)) ==> Tidy()
    {
      var relname := Pictures.RelativeNameOf(picFilename);
      Flush();
      CStringPlain(relname);
      output.AddImageBlock(relname, rect);
    }

    /**
     * `drawImageOrMask`: a picture drawn before from the same image object
     * with the same flip reuses its file; otherwise the next picture
     * number is taken, a file of the selected format is produced and,
     * for an image object with a reference, registered. Either way the
     * pending text is flushed and an image element is written at the
     * picture's rounded rectangle.
     */
    method DrawImageOrMask(ref: Option<int>, x1: real, y1: real, x2: real, y2: real,
                           isDct: bool, numComps: int, bits: int, inlineImg: bool, mask: bool,
                           width: nat, height: nat, raw: seq<bv8>, decoded: seq<bv8>, pixels: seq<Rgb>)
      returns (picture: Option<PictureFile>)
      requires Valid() && pictures.Valid()
      requires PrintableRect(ImageRect(Pictures.Orient(x1, y1, x2, y2)))
      modifies pictures, this`coalescValid, output
      ensures var o := Pictures.Orient(x1, y1, x2, y2);
        var format := Pictures.SelectFormat(isDct, mask, numComps, bits, inlineImg);
        var drawn := Pictures.Drawn(old(pictures.references), old(pictures.number), ref, o.flip, format);
        var name := Pictures.PictureName(pictures.base, old(pictures.references), old(pictures.number), ref, o.flip, format);
        && output.out == old(output.out) + (if old(coalescValid) then TextBlock(old(coalescContent), old(coalescRect)) else "")
             + ImageBlock(Pictures.RelativeName(name), ImageRect(o))
        && pictures.references == drawn.0 && pictures.number == drawn.1
        && (picture.None? <==> ref.Some? && Pictures.FirstMatch(old(pictures.references), ref.value, o.flip).Some?)
        && (picture.Some? ==>
              && picture.value.name == name && picture.value.format == format
              && Holds(picture.value.format, picture.value.content, raw, decoded, pixels, width, height, o.flipX, o.flipY))
      ensures !coalescValid
      ensures output.pageOpened == old(output.pageOpened) && output.fontOpened == old(output.fontOpened)
      ensures output.documentOpened == old(output.documentOpened)
      ensures Valid() && pictures.Valid()
      ensures old(Tidy()) ==> Tidy()
    {
      var o := Pictures.Orient(x1, y1, x2, y2);
      Pictures.PictureNameMarkupFree(pictures.base, pictures.references, pictures.number, ref, o.flip,
                                     Pictures.SelectFormat(isDct, mask, numComps, bits, inlineImg));
      var picFile;
      picFile, picture := pictures.Produce(ref, o, isDct, numComps, bits, inlineImg, mask, width, height, raw, decoded, pixels);
      AppendImageBlock(ImageRect(o), picFile);
    }

    /**
     * `drawLink`: on a page, a valid link is resolved and, when it
     * resolves, written as a page link or a URL link at its active area.
     */
    method DrawLink(linkOk: bool, x1: real, y1: real, x2: real, y2: real, action: Option<Links.Action>,
                    catalog: Links.Catalog, transform: Links.Transform, transformDelta: Links.Transform)
      requires linkOk && pageStateSet ==>
        Links.Printable(Links.ResolveLink(Links.ActiveRect(x1, y1, x2, y2, transform, transformDelta), action, catalog, transform))
      modifies output
      ensures output.out == old(output.out)
        + (if linkOk && pageStateSet
           then Links.LinkText(Links.ResolveLink(Links.ActiveRect(x1, y1, x2, y2, transform, transformDelta), action, catalog, transform))
           else "")
      ensures output.pageOpened == old(output.pageOpened) && output.fontOpened == old(output.fontOpened)
      ensures output.documentOpened == old(output.documentOpened)
      ensures old(Tidy()) && Links.MarkupFree(Links.ResolveLink(Links.ActiveRect(x1, y1, x2, y2, transform, transformDelta), action, catalog, transform))
        ==> Tidy()
    {
      if linkOk && pageStateSet {
        var activeRect := Links.ActiveRect(x1, y1, x2, y2, transform, transformDelta);
        var record := Links.ResolveLink(activeRect, action, catalog, transform);
        if record.Some? {
          var link := record.value;
          if link.PageLink? {
            output.AddLink(link.rect, link.page, link.x, link.y);
          } else {
            output.AddLinkUrl(link.rect, link.url);
          }
        }
      }
    }
  }
}
