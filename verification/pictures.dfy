/**
 * The picture side of the output device: how a picture printed mirrored is
 * recognised, the registry of the picture files already written, the
 * choice of file format, and the names of the picture files and of the
 * files the program writes.
 */
module Pictures {
  import opened Wrappers
  import Numbers
  import XmlWriter
  import Markup

  // ------------------------------------------------------------ orientation

  /**
   * The flip code of a picture: bit 0 set when it is printed mirrored
   * left to right, bit 1 when it is printed upside down.
   */
  function FlipCode(flipX: bool, flipY: bool): (flip: int)
    ensures 0 <= flip <= 3
    ensures flip % 2 == 1 <==> flipX
    ensures flip / 2 == 1 <==> flipY
  {
    (if flipX then 1 else 0) + (if flipY then 2 else 0)
  }

  /** The flip code tells both mirrors apart: equal codes mean equal mirrors. */
  lemma FlipCodeInjective(flipX: bool, flipY: bool, flipX': bool, flipY': bool)
    requires FlipCode(flipX, flipY) == FlipCode(flipX', flipY')
    ensures flipX == flipX' && flipY == flipY'
  {
  }

  /**
   * Where a picture lands on the page: its corners put in order, and
   * whether it is printed mirrored.
   */
  datatype Orientation = Orientation(x1: real, y1: real, x2: real, y2: real, flipX: bool, flipY: bool, flip: int)

  /**
   * The corner ordering of `drawImageOrMask`: (x1, y1) is where the top
   * left corner of the picture lands and (x2, y2) the bottom right one;
   * a picture whose left corner lands on the right is mirrored left to
   * right, and the two coordinates are swapped; likewise top and bottom.
   */
  function Orient(x1: real, y1: real, x2: real, y2: real): (o: Orientation)
    ensures o.x1 <= o.x2 && o.y1 <= o.y2
    ensures multiset{o.x1, o.x2} == multiset{x1, x2} && multiset{o.y1, o.y2} == multiset{y1, y2}
    ensures o.flipX <==> x1 > x2
    ensures o.flipY <==> y1 > y2
    ensures o.flip == FlipCode(o.flipX, o.flipY)
  {
    var (left, right) := if x1 > x2 then (x2, x1) else (x1, x2);
    var (top, bottom) := if y1 > y2 then (y2, y1) else (y1, y2);
    Orientation(left, top, right, bottom, x1 > x2, y1 > y2, (if x1 > x2 then 1 else 0) + (if y1 > y2 then 2 else 0))
  }

  // ------------------------------------------------------------ formats

  /** The three kinds of picture file the device writes. */
  datatype ImageFormat = Jpeg | MonochromePng | RgbPng

  /** The file extension of a format. */
  function Extension(format: ImageFormat): (ext: string)
    ensures |ext| == 3 && '\0' !in ext && '/' !in ext && '\\' !in ext
  {
    match format
    case Jpeg => "jpg"
    case _ => "png"
  }

  /**
   * The format chosen for a new picture: a DCT-encoded stream is copied
   * as a JPEG file when it is a mask or has three colour components and is
   * not an inline image; otherwise masks and 1-bit single-component images
   * become 1-bit PNG files, and everything else an RGB PNG file.
   */
  function SelectFormat(isDct: bool, mask: bool, numComps: int, bits: int, inlineImg: bool): (format: ImageFormat)
    ensures format == Jpeg <==> isDct && (mask || numComps == 3) && !inlineImg
    ensures format == MonochromePng <==> format != Jpeg && (mask || (numComps == 1 && bits == 1))
    ensures format == Jpeg ==> isDct && !inlineImg
    ensures isDct && numComps == 3 && !inlineImg ==> format == Jpeg
    ensures mask ==> format != RgbPng
    ensures numComps == 1 && bits == 1 ==> format != RgbPng
    ensures !isDct || inlineImg ==> (format == MonochromePng <==> mask || (numComps == 1 && bits == 1))
  {
    if isDct && (mask || numComps == 3) && !inlineImg then Jpeg
    else if mask || (numComps == 1 && bits == 1) then MonochromePng
    else RgbPng
  }

  // ------------------------------------------------------------ registry

  /**
   * `PictureReference`: a picture file already written, recorded with the
   * PDF object number of the image, the flip code it was drawn with, its
   * picture number and its file extension.
   */
  datatype PictureReference = PictureReference(referenceNumber: int, pictureFlip: int, pictureNumber: int, pictureExtension: string)

  /** The entry was written for this image object drawn with this flip code. */
  predicate Matches(entry: PictureReference, reference: int, flip: int)
  {
    entry.referenceNumber == reference && entry.pictureFlip == flip
  }

  /** The position of the first entry of the registry for (reference, flip), if any. */
  function FirstMatch(refs: seq<PictureReference>, reference: int, flip: int): (r: Option<nat>)
    ensures r.Some? ==> r.value < |refs| && Matches(refs[r.value], reference, flip)
    ensures r.Some? ==> forall j :: 0 <= j < r.value ==> !Matches(refs[j], reference, flip)
    ensures r.None? ==> forall j :: 0 <= j < |refs| ==> !Matches(refs[j], reference, flip)
    decreases |refs|
  {
    if |refs| == 0 then None
    else if Matches(refs[0], reference, flip) then Some(0)
    else
      match FirstMatch(refs[1..], reference, flip)
      case None => None
      case Some(i) => Some(i + 1)
  }

  /** The file of the registry entry at position i. */
  function RegisteredName(base: string, refs: seq<PictureReference>, i: nat): string
    requires i < |refs|
  {
    ImageFilename(base, refs[i].pictureNumber, refs[i].pictureExtension)
  }

  /** The file of the next picture, numbered one past the last, in the given format. */
  function NextName(base: string, number: int, format: ImageFormat): string
  {
    ImageFilename(base, number + 1, Extension(format))
  }

  /**
   * The picture file `drawImageOrMask` draws: for an image object with a
   * reference that the registry holds under the same flip code, the file
   * registered first; otherwise the file of the next picture number, in
   * the selected format.
   */
  function PictureName(base: string, refs: seq<PictureReference>, number: int, ref: Option<int>, flip: int,
                       format: ImageFormat): string
  {
    var found := if ref.Some? then FirstMatch(refs, ref.value, flip) else None;
    if found.Some? then RegisteredName(base, refs, found.value) else NextName(base, number, format)
  }

  /** A position with the first-match property is the one FirstMatch finds. */
  lemma FirstMatchUnique(refs: seq<PictureReference>, reference: int, flip: int, i: nat)
    requires i < |refs| && Matches(refs[i], reference, flip)
    requires forall j :: 0 <= j < i ==> !Matches(refs[j], reference, flip)
    ensures FirstMatch(refs, reference, flip) == Some(i)
  {
  }

  /**
   * The search loop of `drawImageOrMask`: walks the registry in order and
   * stops at the first entry for the same image object and flip code.
   */
  method LookupPicture(refs: seq<PictureReference>, reference: int, flip: int) returns (found: Option<nat>)
    ensures found == FirstMatch(refs, reference, flip)
  {
    found := None;
    var i := 0;
    while i < |refs|
      invariant 0 <= i <= |refs|
      invariant forall j :: 0 <= j < i ==> !Matches(refs[j], reference, flip)
    {
      var entry := refs[i];
      if entry.referenceNumber == reference && entry.pictureFlip == flip {
        FirstMatchUnique(refs, reference, flip, i);
        return Some(i);
      }
      i := i + 1;
    }
  }

  /**
   * What the device keeps true of its registry: every entry has a real
   * object number, a flip code, an extension of the device and a number
   * already handed out; numbers grow along the list, and no two entries
   * have the same object number and flip code.
   */
  ghost predicate Registry(refs: seq<PictureReference>, number: int)
  {
    && number >= 0
    && (forall i :: 0 <= i < |refs| ==>
          && 1 <= refs[i].pictureNumber <= number && refs[i].referenceNumber != -1
          && 0 <= refs[i].pictureFlip <= 3 && (refs[i].pictureExtension == "jpg" || refs[i].pictureExtension == "png"))
    && (forall i, j :: 0 <= i < j < |refs| ==> refs[i].pictureNumber < refs[j].pictureNumber)
    && (forall i, j :: 0 <= i < j < |refs| ==> !Matches(refs[j], refs[i].referenceNumber, refs[i].pictureFlip))
  }

  /**
   * Registering a new picture under the next number, after a failed
   * lookup and for a real object number, keeps the registry free of
   * duplicate keys and its numbers increasing.
   */
  lemma RegisterKeepsRegistry(refs: seq<PictureReference>, number: int, reference: int, flip: int, format: ImageFormat)
    requires Registry(refs, number)
    requires FirstMatch(refs, reference, flip).None? && reference != -1 && 0 <= flip <= 3
    ensures Registry(refs + [PictureReference(reference, flip, number + 1, Extension(format))], number + 1)
  {
    var refs' := refs + [PictureReference(reference, flip, number + 1, Extension(format))];
    forall i, j | 0 <= i < j < |refs'|
      ensures !Matches(refs'[j], refs'[i].referenceNumber, refs'[i].pictureFlip)
    {
      if j == |refs| {
        assert !Matches(refs[i], reference, flip);
      }
    }
  }

  /** Handing out a number without registering it keeps the registry. */
  lemma NumberKeepsRegistry(refs: seq<PictureReference>, number: int)
    requires Registry(refs, number)
    ensures Registry(refs, number + 1)
  {
  }

  /**
   * The registry after `drawImageOrMask`: unchanged when the image object
   * and flip are registered already; otherwise the picture number
   * advances, and an image object with a reference is registered under
   * the new number.
   */
  function Drawn(refs: seq<PictureReference>, number: int, ref: Option<int>, flip: int, format: ImageFormat)
    : (seq<PictureReference>, int)
  {
    var found := if ref.Some? then FirstMatch(refs, ref.value, flip) else None;
    if found.Some? then (refs, number)
    else if ref.Some? && ref.value != -1 then (refs + [PictureReference(ref.value, flip, number + 1, Extension(format))], number + 1)
    else (refs, number + 1)
  }

  /** Drawing a picture keeps the registry. */
  lemma DrawnKeepsRegistry(refs: seq<PictureReference>, number: int, ref: Option<int>, flip: int, format: ImageFormat)
    requires Registry(refs, number) && 0 <= flip <= 3
    ensures Registry(Drawn(refs, number, ref, flip, format).0, Drawn(refs, number, ref, flip, format).1)
  {
    var found := if ref.Some? then FirstMatch(refs, ref.value, flip) else None;
    if found.None? {
      if ref.Some? && ref.value != -1 {
        RegisterKeepsRegistry(refs, number, ref.value, flip, format);
      } else {
        NumberKeepsRegistry(refs, number);
      }
    }
  }

  /** In a registry, an entry is the first match for its own key: a lookup finds exactly it. */
  lemma RegistryLookup(refs: seq<PictureReference>, number: int, i: nat)
    requires Registry(refs, number) && i < |refs|
    ensures FirstMatch(refs, refs[i].referenceNumber, refs[i].pictureFlip) == Some(i)
  {
    FirstMatchUnique(refs, refs[i].referenceNumber, refs[i].pictureFlip, i);
  }

  /** No entry of a registry is found under the object number -1 of images without a reference. */
  lemma UnreferencedNeverFound(refs: seq<PictureReference>, number: int, flip: int)
    requires Registry(refs, number)
    ensures FirstMatch(refs, -1, flip).None?
  {
  }

  // ------------------------------------------------------------ file names

  /**
   * The name of picture `num`: the base name, `_pic`, four upper-case
   * hexadecimal digits of the number, a dot and the extension.
   */
  function ImageFilename(base: string, num: int, ext: string): (name: string)
    ensures |name| == |base| + 9 + |ext|
  {
    base + "_pic" + Numbers.HexDigits(num, 4) + "." + ext
  }

  /**
   * `compose_image_filename`: digit `i` is
   * `HEXADECIMAL_CHARACTERS[(num >> ((3 - i) << 2)) & 0x0F]`; the
   * arithmetic shift is a floor division by a power of 16 and the mask a
   * non-negative remainder.
   */
  method ComposeImageFilename(base: string, num: int, ext: string) returns (result: string)
    ensures result == ImageFilename(base, num, ext)
  {
    result := base + "_pic";
    for i := 0 to 4
      invariant result == base + "_pic" + Numbers.HexDigits(num, 4)[..i]
    {
      Numbers.HexDigitAt(num, 4, i);
      result := result + [Numbers.HexChars[(num / Numbers.Pow16(3 - i)) % 16]];
      assert Numbers.HexDigits(num, 4)[..i + 1] == Numbers.HexDigits(num, 4)[..i] + [Numbers.HexDigits(num, 4)[i]];
    }
    result := result + "." + ext;
  }

  lemma Pow16Of4()
    ensures Numbers.Pow16(4) == 0x1_0000
  {
    calc {
      Numbers.Pow16(4);
      16 * Numbers.Pow16(3);
      256 * Numbers.Pow16(2);
      4096 * Numbers.Pow16(1);
      65536 * Numbers.Pow16(0);
    }
  }

  /** Different picture numbers below 0x10000 give different file names. */
  lemma ImageFilenameInjective(base: string, n: int, m: int, ext: string)
    requires 0 <= n < 0x1_0000 && 0 <= m < 0x1_0000
    requires ImageFilename(base, n, ext) == ImageFilename(base, m, ext)
    ensures n == m
  {
    var prefix, suffix := base + "_pic", "." + ext;
    assert ImageFilename(base, n, ext) == prefix + Numbers.HexDigits(n, 4) + suffix;
    assert ImageFilename(base, m, ext) == prefix + Numbers.HexDigits(m, 4) + suffix;
    MiddleEqual(prefix, Numbers.HexDigits(n, 4), Numbers.HexDigits(m, 4), suffix);
    Pow16Of4();
    HexDigitsInjective(n, m, 4);
  }

  /** Equal strings with the same first and last parts have the same middle part. */
  lemma MiddleEqual(a: string, b: string, b': string, c: string)
    requires |b| == |b'| && a + b + c == a + b' + c
    ensures b == b'
  {
    assert b == (a + b + c)[|a|..|a| + |b|];
    assert b' == (a + b' + c)[|a|..|a| + |b|];
  }

  /** `count` hexadecimal digits tell numbers below 16^count apart. */
  lemma HexDigitsInjective(n: int, m: int, count: nat)
    requires 0 <= n < Numbers.Pow16(count) && 0 <= m < Numbers.Pow16(count)
    requires Numbers.HexDigits(n, count) == Numbers.HexDigits(m, count)
    ensures n == m
  {
    Numbers.HexRoundTrip(n, count);
    Numbers.HexRoundTrip(m, count);
    Numbers.ModUnique(n, Numbers.Pow16(count), 0, n);
    Numbers.ModUnique(m, Numbers.Pow16(count), 0, m);
  }

  /**
   * Only the low 16 bits of the number are written: picture 0x10000 + n
   * gets the name of picture n.
   */
  lemma ImageFilenameWraps(base: string, n: int, ext: string)
    ensures ImageFilename(base, n + 0x1_0000, ext) == ImageFilename(base, n, ext)
  {
    Pow16Of4();
    assert (n + 0x1_0000) % 0x1_0000 == n % 0x1_0000;
    Numbers.HexDigitsWrap(n + 0x1_0000, n, 4);
  }

  // ------------------------------------------------------------ relative names

  predicate IsSeparator(c: char) { c == '/' || c == '\\' }

  /** The position of the last path separator of `s`, or -1 when it has none. */
  function LastSeparator(s: string): (i: int)
    ensures -1 <= i < |s|
    ensures i >= 0 ==> IsSeparator(s[i])
    ensures forall j :: i < j < |s| ==> !IsSeparator(s[j])
  {
    if |s| == 0 then -1
    else if IsSeparator(s[|s| - 1]) then |s| - 1
    else LastSeparator(s[..|s| - 1])
  }

  /**
   * The file name without its directories: what follows the last `/` or
   * `\` of the C string.
   */
  function RelativeName(s: string): (r: string)
    ensures forall i :: 0 <= i < |r| ==> !IsSeparator(r[i]) && r[i] != '\0'
    ensures |r| <= |s|
  {
    var c := XmlWriter.CString(s);
    c[LastSeparator(c) + 1..]
  }

  /**
   * The scan of `append_image_block` and of `main`: walk the C string to
   * its terminating NUL and remember the last separator; the name starts
   * right after it.
   */
  method RelativeNameOf(s: string) returns (relname: string)
    ensures relname == RelativeName(s)
  {
    ghost var c := XmlWriter.CString(s);
    var lastSeparatorIndex := -1;
    var index := 0;
    while index < |s| && s[index] != '\0'
      invariant 0 <= index <= |c| && s[..index] == c[..index]
      invariant lastSeparatorIndex == LastSeparator(c[..index])
    {
      assert c[index] == s[index];
      assert c[..index + 1][..index] == c[..index];
      if s[index] == '/' || s[index] == '\\' {
        lastSeparatorIndex := index;
      }
      index := index + 1;
    }
    assert c[..index] == c;
    relname := XmlWriter.CString(s[lastSeparatorIndex + 1..]);
    CStringSuffix(s, lastSeparatorIndex + 1);
  }

  /** The C string of a suffix that starts inside the C string of `s` is the rest of that C string. */
  lemma {:induction false} CStringSuffix(s: string, k: nat)
    requires k <= |XmlWriter.CString(s)|
    ensures XmlWriter.CString(s[k..]) == XmlWriter.CString(s)[k..]
    decreases k
  {
    if k > 0 {
      assert s[1..][k - 1..] == s[k..];
      CStringSuffix(s[1..], k - 1);
    }
  }

  /** The last separator of a concatenation is in the second part when it has one. */
  lemma {:induction false} LastSeparatorAppend(a: string, b: string)
    ensures LastSeparator(a + b) == if LastSeparator(b) >= 0 then |a| + LastSeparator(b) else LastSeparator(a)
    decreases |b|
  {
    if |b| > 0 {
      assert (a + b)[..|a + b| - 1] == a + b[..|b| - 1];
      LastSeparatorAppend(a, b[..|b| - 1]);
    } else {
      assert a + b == a;
    }
  }

  /** A name without separators or NUL is its own relative name. */
  lemma RelativeNamePlain(s: string)
    requires forall i :: 0 <= i < |s| ==> !IsSeparator(s[i]) && s[i] != '\0'
    ensures RelativeName(s) == s
  {
    XmlWriter.CStringPlain(s);
  }

  /** Taking the relative name twice changes nothing. */
  lemma RelativeNameIdempotent(s: string)
    ensures RelativeName(RelativeName(s)) == RelativeName(s)
  {
    RelativeNamePlain(RelativeName(s));
  }

  /**
   * The `src` of an image block: the relative name of a picture file is
   * the relative name of the base followed by the generated suffix.
   */
  lemma RelativeImageFilename(base: string, num: int, ext: string)
    requires '\0' !in base && '\0' !in ext && '/' !in ext && '\\' !in ext
    ensures RelativeName(ImageFilename(base, num, ext)) == RelativeName(base) + "_pic" + Numbers.HexDigits(num, 4) + "." + ext
  {
    var digits := Numbers.HexDigits(num, 4);
    HexDigitsPlain(num, 4);
    var suffix := "_pic" + digits + "." + ext;
    assert ImageFilename(base, num, ext) == base + suffix;
    SuffixPlain(digits, ext);
    RelativeNameAppendPlain(base, suffix);
  }

  lemma HexDigitsPlain(num: int, count: nat)
    ensures forall i :: 0 <= i < count ==> Numbers.IsHexDigit(Numbers.HexDigits(num, count)[i])
  {
    Numbers.HexRoundTrip(num, count);
  }

  /** Nothing the device appends to the base name is a separator or NUL. */
  lemma SuffixPlain(digits: string, ext: string)
    requires forall i :: 0 <= i < |digits| ==> Numbers.IsHexDigit(digits[i])
    requires '\0' !in ext && '/' !in ext && '\\' !in ext
    ensures var suffix := "_pic" + digits + "." + ext;
      forall i :: 0 <= i < |suffix| ==> !IsSeparator(suffix[i]) && suffix[i] != '\0'
  {
    var suffix := "_pic" + digits + "." + ext;
    forall i | 0 <= i < |suffix|
      ensures !IsSeparator(suffix[i]) && suffix[i] != '\0'
    {
      if 4 <= i < 4 + |digits| {
        assert suffix[i] == digits[i - 4];
      } else if i >= 5 + |digits| {
        assert suffix[i] == ext[i - 5 - |digits|];
      }
    }
  }

  /** Appending a plain name to a C string appends it to the relative name. */
  lemma RelativeNameAppendPlain(a: string, b: string)
    requires '\0' !in a
    requires forall i :: 0 <= i < |b| ==> !IsSeparator(b[i]) && b[i] != '\0'
    ensures RelativeName(a + b) == RelativeName(a) + b
  {
    XmlWriter.CStringPlain(a + b);
    XmlWriter.CStringPlain(a);
    LastSeparatorAppend(a, b);
    NoSeparator(b);
    var k := LastSeparator(a) + 1;
    assert (a + b)[k..] == a[k..] + b;
  }

  lemma NoSeparator(b: string)
    requires forall i :: 0 <= i < |b| ==> !IsSeparator(b[i])
    ensures LastSeparator(b) == -1
  {
  }

  /** The relative name takes its characters from the name: a name without markup gives one without markup. */
  lemma RelativeNameMarkupFree(s: string)
    requires Markup.MarkupFree(s)
    ensures Markup.MarkupFree(RelativeName(s))
  {
    var c := XmlWriter.CString(s);
    var k := LastSeparator(c) + 1;
    assert c == s[..|c|];
    forall i | 0 <= i < |RelativeName(s)|
      ensures RelativeName(s)[i] == s[k + i]
    {
    }
  }

  /**
   * A picture file name built on a base without markup, with an
   * extension without markup, keeps its relative name free of markup.
   */
  lemma ImageFilenameMarkupFree(base: string, num: int, ext: string)
    requires Markup.MarkupFree(base) && Markup.MarkupFree(ext)
    ensures Markup.MarkupFree(RelativeName(ImageFilename(base, num, ext)))
  {
    var digits := Numbers.HexDigits(num, 4);
    HexDigitsPlain(num, 4);
    var suffix := "_pic" + digits + "." + ext;
    var s := ImageFilename(base, num, ext);
    assert s == base + suffix;
    forall i | 0 <= i < |suffix|
      ensures suffix[i] != '<' && suffix[i] != '>'
    {
      if 4 <= i < 8 {
        assert suffix[i] == digits[i - 4];
      } else if i >= 9 {
        assert suffix[i] == ext[i - 9];
      }
    }
    forall i | 0 <= i < |s|
      ensures s[i] != '<' && s[i] != '>'
    {
      if i >= |base| {
        assert s[i] == suffix[i - |base|];
      }
    }
    RelativeNameMarkupFree(s);
  }

  /** The file name of a registered picture keeps its relative name free of markup when the base is. */
  lemma RegisteredNameMarkupFree(refs: seq<PictureReference>, number: int, base: string, i: nat)
    requires Registry(refs, number) && i < |refs| && Markup.MarkupFree(base)
    ensures Markup.MarkupFree(RelativeName(RegisteredName(base, refs, i)))
  {
    ImageFilenameMarkupFree(base, refs[i].pictureNumber, refs[i].pictureExtension);
  }

  /** The picture file `drawImageOrMask` draws keeps its relative name free of markup when the base is. */
  lemma PictureNameMarkupFree(base: string, refs: seq<PictureReference>, number: int, ref: Option<int>, flip: int,
                              format: ImageFormat)
    requires Registry(refs, number)
    ensures Markup.MarkupFree(base) ==> Markup.MarkupFree(RelativeName(PictureName(base, refs, number, ref, flip, format)))
  {
    var found := if ref.Some? then FirstMatch(refs, ref.value, flip) else None;
    if !Markup.MarkupFree(base) {
    } else if found.Some? {
      RegisteredNameMarkupFree(refs, number, base, found.value);
    } else {
      ImageFilenameMarkupFree(base, number + 1, Extension(format));
    }
  }

  // ------------------------------------------------------------ output names

  /** The name ends in a dot and three more characters, as `name.pdf` does. */
  predicate HasExtension(name: string)
  {
    |name| >= 4 && name[|name| - 4] == '.'
  }

  /**
   * The file names of `main`: the input's name without its directories,
   * with a three-letter extension replaced by `xml` (or `.xml` appended)
   * for the XML file, and with the extension removed for the base of the
   * picture names. Both files land in the current directory.
   */
  method OutputNames(argument: string) returns (outputFile: string, imagesBase: string)
    ensures imagesBase == if HasExtension(RelativeName(argument)) then RelativeName(argument)[..|RelativeName(argument)| - 4]
                          else RelativeName(argument)
    ensures outputFile == imagesBase + ".xml"
  {
    var outputStart := RelativeNameOf(argument);
    outputFile := outputStart;
    imagesBase := outputStart;
    var length := |outputFile|;
    if length >= 4 && outputFile[length - 4] == '.' {
      outputFile := outputFile[length - 3 := 'x'];
      outputFile := outputFile[length - 2 := 'm'];
      outputFile := outputFile[length - 1 := 'l'];
      imagesBase := imagesBase[..length - 4];
      assert outputFile == imagesBase + ".xml";
    } else {
      outputFile := outputFile + ".xml";
    }
  }
}
