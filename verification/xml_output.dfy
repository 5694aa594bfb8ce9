/**
 * `XmlOutput`: the writer of the pdf2xml document. Every method appends
 * text to the file; `page_opened` and `font_opened` record which elements
 * are still open so that `start_page` and `change_font` can close them.
 *
 * The file is modelled by the string `out` of everything written so far.
 * `write(const char*)` writes the characters before the first NUL, so each
 * piece of caller text goes through CString. A failing `fwrite` is not
 * modelled: every write succeeds.
 */
module XmlWriter {
  import opened Wrappers
  import opened Markup
  import opened Numbers
  import opened Geometry
  import TextEncoding

  /** What `write(const char*)` writes of `s`: the characters before the first NUL. */
  function CString(s: string): (r: string)
    ensures |r| <= |s| && r == s[..|r|]
    ensures '\0' !in r
    ensures |r| < |s| ==> s[|r|] == '\0'
  {
    if s == [] || s[0] == '\0' then "" else [s[0]] + CString(s[1..])
  }

  /** An `int` that `write(int)` can print: a 32-bit value other than the smallest. */
  predicate Printable(n: int) { -0x8000_0000 < n < 0x8000_0000 }

  predicate PrintableRect(r: Rect) {
    Printable(r.x) && Printable(r.y) && Printable(r.width) && Printable(r.height)
  }

  // ------------------------------------------------------- what is written

  /** The XML declaration `open` writes: `<?xml version="1.0" encoding="utf-8" ?>` and a line break. */
  const XmlDeclaration := "<" + DeclarationBody + ">" + "\n"
  const DeclarationBody := DeclarationVersion + DeclarationEncoding
  const DeclarationVersion := "?xml version=\"1.0\""
  const DeclarationEncoding := " encoding=\"utf-8\" ?"
  const FontClose := "    </font>\n"
  const PageClose := "  </page>\n"
  const DocumentClose := "</pdf2xml>\n"

  function DocumentOpen(nbPages: int): string { "<pdf2xml pages=\"" + Decimal(nbPages) + "\">\n" }

  function PageOpen(width: int, height: int): string
  {
    "  <page width=\"" + Decimal(width) + "\" height=\"" + Decimal(height) + "\">\n"
  }

  function FontOpen(face: string, size: int, color: int, bold: bool, italic: bool): string
  {
    "    <font size=\"" + Decimal(size) + FaceText(face) + ColorAttributeText(color)
    + FlagText(bold, "\" bold=\"true") + FlagText(italic, "\" italic=\"true") + "\">\n"
  }

  /** The face attribute, written only for a non-empty face name. */
  function FaceText(face: string): string
  {
    if |face| > 0 then "\" face=\"" + CString(face) else ""
  }

  /** The colour attribute, written only for a colour other than black. */
  function ColorAttributeText(color: int): string
  {
    if color != 0 then "\" color=\"#" + HexDigits(color, 6) else ""
  }

  /** A flag attribute, written only when the flag is set. */
  function FlagText(flag: bool, text: string): string
  {
    if flag then text else ""
  }

  /** The position attributes shared by links, text and images, from the value of `x` on. */
  function Bounds(r: Rect): string
  {
    Decimal(r.x) + "\" y=\"" + Decimal(r.y) + "\" width=\"" + Decimal(r.width) + "\" height=\"" + Decimal(r.height)
  }

  function PageLink(r: Rect, destPage: int, destX: int, destY: int): string
  {
    "      <link x=\"" + Bounds(r) + "\" dest_page=\"" + Decimal(destPage)
    + "\" dest_x=\"" + Decimal(destX) + "\" dest_y=\"" + Decimal(destY) + "\"/>"
  }

  function UrlLink(r: Rect, url: string): string
  {
    "      <link x=\"" + Bounds(r) + "\" href=\"" + CString(url) + "\"/>"
  }

  function TextBlock(str: string, r: Rect): string
  {
    "      <text x=\"" + Bounds(r) + "\">" + CString(str) + "</text>\n"
  }

  function ImageBlock(filename: string, r: Rect): string
  {
    "      <img x=\"" + Bounds(r) + "\" src=\"" + CString(filename) + "\"/>\n"
  }

  function Metatag(tag: string, value: string): string
  {
    "  <" + CString(tag) + ">" + CString(TextEncoding.MetaText(value)) + "</" + CString(tag) + ">\n"
  }

  // ------------------------------------------------------- as markup

  /** Text that can stand as an attribute value: no markup, no quote, no NUL. */
  predicate AttributeSafe(s: string) { MarkupFree(s) && '"' !in s && '\0' !in s }

  function Optional(present: bool, a: Attribute): seq<Attribute> { if present then [a] else [] }

  function BoundsOf(x: string, y: string, width: string, height: string): seq<Attribute>
  {
    [Attribute("x", x), Attribute("y", y), Attribute("width", width), Attribute("height", height)]
  }

  function BoundsAttributes(r: Rect): seq<Attribute>
  {
    BoundsOf(Decimal(r.x), Decimal(r.y), Decimal(r.width), Decimal(r.height))
  }

  function DocumentAttributes(nbPages: int): seq<Attribute> { [Attribute("pages", Decimal(nbPages))] }

  function PageAttributes(width: int, height: int): seq<Attribute>
  {
    [Attribute("width", Decimal(width)), Attribute("height", Decimal(height))]
  }

  function FontAttributes(face: string, size: int, color: int, bold: bool, italic: bool): seq<Attribute>
  {
    [Attribute("size", Decimal(size))]
    + Optional(|face| > 0, Attribute("face", CString(face)))
    + Optional(color != 0, Attribute("color", "#" + HexDigits(color, 6)))
    + Optional(bold, Attribute("bold", "true"))
    + Optional(italic, Attribute("italic", "true"))
  }

  function LinkAttributes(r: Rect, destPage: int, destX: int, destY: int): seq<Attribute>
  {
    BoundsAttributes(r)
    + [Attribute("dest_page", Decimal(destPage)), Attribute("dest_x", Decimal(destX)), Attribute("dest_y", Decimal(destY))]
  }

  function UrlAttributes(r: Rect, url: string): seq<Attribute> { BoundsAttributes(r) + [Attribute("href", CString(url))] }

  function ImageAttributes(r: Rect, filename: string): seq<Attribute>
  {
    BoundsAttributes(r) + [Attribute("src", CString(filename))]
  }

  /** The value of an attribute read as a decimal number. */
  function IntAttribute(attrs: seq<Attribute>, name: string): Option<int>
  {
    match Lookup(attrs, name)
    case Some(v) => Some(ParseDecimal(v))
    case None => None
  }

  lemma AttributeText1(a: Attribute)
    ensures AttributesText([a]) == " " + a.name + "=\"" + a.value + "\""
  {
    assert [a][1..] == [];
  }

  /** Written attribute lists concatenate. */
  lemma {:induction false} AttributesTextAppend(a: seq<Attribute>, b: seq<Attribute>)
    ensures AttributesText(a + b) == AttributesText(a) + AttributesText(b)
    decreases |a|
  {
    if a == [] {
      assert a + b == b;
    } else {
      assert (a + b)[0] == a[0] && (a + b)[1..] == a[1..] + b;
      AttributesTextAppend(a[1..], b);
    }
  }

  /**
   * The way the writer spells attributes after the first: each write
   * closes the previous value's quote and opens the next, `" name="value`.
   */
  function Continued(attrs: seq<Attribute>): string
  {
    if attrs == [] then "" else "\" " + attrs[0].name + "=\"" + attrs[0].value + Continued(attrs[1..])
  }

  lemma {:induction false} ContinuedAppend(a: seq<Attribute>, b: seq<Attribute>)
    ensures Continued(a + b) == Continued(a) + Continued(b)
    decreases |a|
  {
    if a == [] {
      assert a + b == b;
    } else {
      assert (a + b)[0] == a[0] && (a + b)[1..] == a[1..] + b;
      ContinuedAppend(a[1..], b);
    }
  }

  lemma Continued1(a: Attribute)
    ensures Continued([a]) == "\" " + a.name + "=\"" + a.value
  {
    assert [a][1..] == [];
  }

  /** Shifting every quote by one attribute turns the attribute text into the continued spelling. */
  lemma {:induction false} ContinuedIsAttributes(attrs: seq<Attribute>)
    ensures "\"" + AttributesText(attrs) == Continued(attrs) + "\""
  {
    if attrs != [] {
      var a := attrs[0];
      ContinuedIsAttributes(attrs[1..]);
      calc {
        "\"" + AttributesText(attrs);
        "\"" + (" " + a.name + "=\"" + a.value + "\"" + AttributesText(attrs[1..]));
        "\" " + a.name + "=\"" + a.value + ("\"" + AttributesText(attrs[1..]));
        "\" " + a.name + "=\"" + a.value + (Continued(attrs[1..]) + "\"");
        Continued(attrs) + "\"";
      }
    }
  }

  /** A start tag written as the source writes it: first attribute, then the continued ones. */
  lemma StartTagWritten(name: string, first: Attribute, rest: seq<Attribute>)
    ensures StartTag(name, [first] + rest)
         == "<" + name + " " + first.name + "=\"" + first.value + Continued(rest) + "\">"
  {
    AttributesTextAppend([first], rest);
    AttributeText1(first);
    ContinuedIsAttributes(rest);
    calc {
      StartTag(name, [first] + rest);
      "<" + name + (" " + first.name + "=\"" + first.value + "\"" + AttributesText(rest)) + ">";
      "<" + name + " " + first.name + "=\"" + first.value + ("\"" + AttributesText(rest)) + ">";
      "<" + name + " " + first.name + "=\"" + first.value + (Continued(rest) + "\"") + ">";
    }
  }

  /** An empty-element tag written as the source writes it. */
  lemma EmptyTagWritten(name: string, first: Attribute, rest: seq<Attribute>)
    ensures EmptyTag(name, [first] + rest)
         == "<" + name + " " + first.name + "=\"" + first.value + Continued(rest) + "\"/>"
  {
    AttributesTextAppend([first], rest);
    AttributeText1(first);
    ContinuedIsAttributes(rest);
    calc {
      EmptyTag(name, [first] + rest);
      "<" + name + (" " + first.name + "=\"" + first.value + "\"" + AttributesText(rest)) + "/>";
      "<" + name + " " + first.name + "=\"" + first.value + ("\"" + AttributesText(rest)) + "/>";
      "<" + name + " " + first.name + "=\"" + first.value + (Continued(rest) + "\"") + "/>";
    }
  }

  lemma ContinuedOptional(present: bool, a: Attribute)
    ensures Continued(Optional(present, a)) == if present then "\" " + a.name + "=\"" + a.value else ""
  {
    if present {
      Continued1(a);
    }
  }

  lemma Continued3(a: Attribute, b: Attribute, c: Attribute)
    ensures Continued([a, b, c])
         == "\" " + a.name + "=\"" + a.value + "\" " + b.name + "=\"" + b.value + "\" " + c.name + "=\"" + c.value
  {
    assert [a, b, c] == [a] + ([b] + [c]);
    ContinuedAppend([a], [b] + [c]);
    ContinuedAppend([b], [c]);
    Continued1(a);
    Continued1(b);
    Continued1(c);
  }

  // The lemmas below match what a writer method emits, one write at a
  // time, against the markup it stands for. They are stated over string
  // parameters; the lemmas about the writer's own text instantiate them.

  lemma BoundsSpelled(x: string, y: string, width: string, height: string)
    ensures x + "\" y=\"" + y + "\" width=\"" + width + "\" height=\"" + height
         == x + Continued(BoundsOf(x, y, width, height)[1..])
  {
    assert BoundsOf(x, y, width, height)[1..] == [Attribute("y", y), Attribute("width", width), Attribute("height", height)];
    Continued3(Attribute("y", y), Attribute("width", width), Attribute("height", height));
    BoundsLeads();
    assert "\" " + "y" + "=\"" + y + "\" " + "width" + "=\"" + width + "\" " + "height" + "=\"" + height
        == ("\" " + "y" + "=\"") + y + ("\" " + "width" + "=\"") + width + ("\" " + "height" + "=\"") + height;
    PrefixRegroup(x, "\" y=\"", y, "\" width=\"", width, "\" height=\"", height);
  }

  lemma BoundsLeads()
    ensures "\" y=\"" == "\" " + "y" + "=\""
    ensures "\" width=\"" == "\" " + "width" + "=\""
    ensures "\" height=\"" == "\" " + "height" + "=\""
  {
  }

  lemma PrefixRegroup(x: string, a: string, b: string, c: string, d: string, e: string, f: string)
    ensures x + (a + b + c + d + e + f) == x + a + b + c + d + e + f
  {
  }

  /** An empty-element tag whose attributes are the bounds followed by `more`. */
  lemma BoundsTagSpelled(name: string, x: string, y: string, width: string, height: string, more: seq<Attribute>)
    ensures "<" + name + " x=\"" + (x + "\" y=\"" + y + "\" width=\"" + width + "\" height=\"" + height) + Continued(more) + "\"/>"
         == EmptyTag(name, BoundsOf(x, y, width, height) + more)
  {
    var b := BoundsOf(x, y, width, height);
    assert b + more == [b[0]] + (b[1..] + more);
    EmptyTagWritten(name, b[0], b[1..] + more);
    ContinuedAppend(b[1..], more);
    BoundsSpelled(x, y, width, height);
  }

  lemma LinkTail(p: string, dx: string, dy: string)
    ensures Continued([Attribute("dest_page", p), Attribute("dest_x", dx), Attribute("dest_y", dy)])
         == "\" dest_page=\"" + p + "\" dest_x=\"" + dx + "\" dest_y=\"" + dy
  {
    Continued3(Attribute("dest_page", p), Attribute("dest_x", dx), Attribute("dest_y", dy));
    LinkLeads();
    assert "\" " + "dest_page" + "=\"" + p + "\" " + "dest_x" + "=\"" + dx + "\" " + "dest_y" + "=\"" + dy
        == ("\" " + "dest_page" + "=\"") + p + ("\" " + "dest_x" + "=\"") + dx + ("\" " + "dest_y" + "=\"") + dy;
  }

  lemma LinkLeads()
    ensures "\" dest_page=\"" == "\" " + "dest_page" + "=\""
    ensures "\" dest_x=\"" == "\" " + "dest_x" + "=\""
    ensures "\" dest_y=\"" == "\" " + "dest_y" + "=\""
  {
  }

  lemma LinkRegroup(b: string, p: string, dx: string, dy: string)
    ensures "      <link x=\"" + b + "\" dest_page=\"" + p + "\" dest_x=\"" + dx + "\" dest_y=\"" + dy + "\"/>"
         == "      " + ("<" + "link" + " x=\"" + b + ("\" dest_page=\"" + p + "\" dest_x=\"" + dx + "\" dest_y=\"" + dy) + "\"/>")
  {
  }

  lemma LinkSpelled(x: string, y: string, width: string, height: string, p: string, dx: string, dy: string)
    ensures "      <link x=\"" + (x + "\" y=\"" + y + "\" width=\"" + width + "\" height=\"" + height)
            + "\" dest_page=\"" + p + "\" dest_x=\"" + dx + "\" dest_y=\"" + dy + "\"/>"
         == "      " + EmptyTag("link", BoundsOf(x, y, width, height)
                + [Attribute("dest_page", p), Attribute("dest_x", dx), Attribute("dest_y", dy)])
  {
    var more := [Attribute("dest_page", p), Attribute("dest_x", dx), Attribute("dest_y", dy)];
    LinkTail(p, dx, dy);
    BoundsTagSpelled("link", x, y, width, height, more);
    LinkRegroup(x + "\" y=\"" + y + "\" width=\"" + width + "\" height=\"" + height, p, dx, dy);
  }

  /** The text of `add_link` with a page destination is one empty `link` element. */
  lemma PageLinkIsTag(r: Rect, destPage: int, destX: int, destY: int)
    ensures PageLink(r, destPage, destX, destY) == "      " + EmptyTag("link", LinkAttributes(r, destPage, destX, destY))
  {
    LinkSpelled(Decimal(r.x), Decimal(r.y), Decimal(r.width), Decimal(r.height), Decimal(destPage), Decimal(destX), Decimal(destY));
  }

  /** A start tag whose attributes are the bounds followed by `more`. */
  lemma BoundsStartSpelled(name: string, x: string, y: string, width: string, height: string, more: seq<Attribute>)
    ensures "<" + name + " x=\"" + (x + "\" y=\"" + y + "\" width=\"" + width + "\" height=\"" + height) + Continued(more) + "\">"
         == StartTag(name, BoundsOf(x, y, width, height) + more)
  {
    var b := BoundsOf(x, y, width, height);
    assert b + more == [b[0]] + (b[1..] + more);
    StartTagWritten(name, b[0], b[1..] + more);
    ContinuedAppend(b[1..], more);
    BoundsSpelled(x, y, width, height);
  }

  lemma UrlRegroup(b: string, u: string)
    ensures "      <link x=\"" + b + "\" href=\"" + u + "\"/>"
         == "      " + ("<" + "link" + " x=\"" + b + ("\" " + "href" + "=\"" + u) + "\"/>")
  {
  }

  lemma UrlSpelled(x: string, y: string, width: string, height: string, u: string)
    ensures "      <link x=\"" + (x + "\" y=\"" + y + "\" width=\"" + width + "\" height=\"" + height) + "\" href=\"" + u + "\"/>"
         == "      " + EmptyTag("link", BoundsOf(x, y, width, height) + [Attribute("href", u)])
  {
    Continued1(Attribute("href", u));
    BoundsTagSpelled("link", x, y, width, height, [Attribute("href", u)]);
    UrlRegroup(x + "\" y=\"" + y + "\" width=\"" + width + "\" height=\"" + height, u);
  }

  /** The text of `add_link` with a URL is one empty `link` element. */
  lemma UrlLinkIsTag(r: Rect, url: string)
    ensures UrlLink(r, url) == "      " + EmptyTag("link", UrlAttributes(r, url))
  {
    UrlSpelled(Decimal(r.x), Decimal(r.y), Decimal(r.width), Decimal(r.height), CString(url));
  }

  lemma ImageRegroup(b: string, f: string)
    ensures "      <img x=\"" + b + "\" src=\"" + f + "\"/>\n"
         == "      " + ("<" + "img" + " x=\"" + b + ("\" " + "src" + "=\"" + f) + "\"/>") + "\n"
  {
  }

  lemma ImageSpelled(x: string, y: string, width: string, height: string, f: string)
    ensures "      <img x=\"" + (x + "\" y=\"" + y + "\" width=\"" + width + "\" height=\"" + height) + "\" src=\"" + f + "\"/>\n"
         == "      " + EmptyTag("img", BoundsOf(x, y, width, height) + [Attribute("src", f)]) + "\n"
  {
    Continued1(Attribute("src", f));
    BoundsTagSpelled("img", x, y, width, height, [Attribute("src", f)]);
    ImageRegroup(x + "\" y=\"" + y + "\" width=\"" + width + "\" height=\"" + height, f);
  }

  /** The text of `add_image_block` is one empty `img` element and a line break. */
  lemma ImageBlockIsTag(filename: string, r: Rect)
    ensures ImageBlock(filename, r) == "      " + EmptyTag("img", ImageAttributes(r, filename)) + "\n"
  {
    ImageSpelled(Decimal(r.x), Decimal(r.y), Decimal(r.width), Decimal(r.height), CString(filename));
  }

  lemma TextRegroup(b: string, t: string)
    ensures "      <text x=\"" + b + "\">" + t + "</text>\n"
         == "      " + ("<" + "text" + " x=\"" + b + "" + "\">") + t + EndTag("text") + "\n"
  {
  }

  lemma TextSpelled(x: string, y: string, width: string, height: string, t: string)
    ensures "      <text x=\"" + (x + "\" y=\"" + y + "\" width=\"" + width + "\" height=\"" + height) + "\">" + t + "</text>\n"
         == "      " + StartTag("text", BoundsOf(x, y, width, height)) + t + EndTag("text") + "\n"
  {
    assert BoundsOf(x, y, width, height) + [] == BoundsOf(x, y, width, height);
    assert Continued([]) == "";
    BoundsStartSpelled("text", x, y, width, height, []);
    TextRegroup(x + "\" y=\"" + y + "\" width=\"" + width + "\" height=\"" + height, t);
  }

  /** The text of `add_text_block` is one `text` element holding the text and a line break. */
  lemma TextBlockIsElement(str: string, r: Rect)
    ensures TextBlock(str, r) == "      " + StartTag("text", BoundsAttributes(r)) + CString(str) + EndTag("text") + "\n"
  {
    TextSpelled(Decimal(r.x), Decimal(r.y), Decimal(r.width), Decimal(r.height), CString(str));
  }

  lemma PageRegroup(w: string, h: string)
    ensures "  <page width=\"" + w + "\" height=\"" + h + "\">\n"
         == "  " + ("<" + "page" + " " + "width" + "=\"" + w + ("\" " + "height" + "=\"" + h) + "\">") + "\n"
  {
  }

  lemma PageSpelled(w: string, h: string)
    ensures "  <page width=\"" + w + "\" height=\"" + h + "\">\n"
         == "  " + StartTag("page", [Attribute("width", w), Attribute("height", h)]) + "\n"
  {
    assert [Attribute("width", w), Attribute("height", h)] == [Attribute("width", w)] + [Attribute("height", h)];
    StartTagWritten("page", Attribute("width", w), [Attribute("height", h)]);
    Continued1(Attribute("height", h));
    PageRegroup(w, h);
  }

  /** The text of `start_page` after the closing tags is one `page` start tag and a line break. */
  lemma PageOpenIsTag(width: int, height: int)
    ensures PageOpen(width, height) == "  " + StartTag("page", PageAttributes(width, height)) + "\n"
  {
    PageSpelled(Decimal(width), Decimal(height));
  }

  lemma DocumentSpelled(n: string)
    ensures "<pdf2xml pages=\"" + n + "\">\n" == StartTag("pdf2xml", [Attribute("pages", n)]) + "\n"
  {
    assert [Attribute("pages", n)] == [Attribute("pages", n)] + [];
    StartTagWritten("pdf2xml", Attribute("pages", n), []);
    assert Continued([]) == "";
  }

  /** The opening of the document is the `pdf2xml` start tag and a line break. */
  lemma DocumentOpenIsTag(nbPages: int)
    ensures DocumentOpen(nbPages) == StartTag("pdf2xml", DocumentAttributes(nbPages)) + "\n"
  {
    DocumentSpelled(Decimal(nbPages));
  }

  lemma FontRegroup(size: string, f: string, c: string, b: string, i: string)
    ensures "    <font size=\"" + size + f + c + b + i + "\">\n"
         == "    " + ("<" + "font" + " " + "size" + "=\"" + size + (f + c + b + i) + "\">") + "\n"
  {
  }

  lemma OptionalPiece(present: bool, name: string, v: string, lead: string)
    requires lead == "\" " + name + "=\""
    ensures Continued(Optional(present, Attribute(name, v))) == if present then lead + v else ""
  {
    ContinuedOptional(present, Attribute(name, v));
  }

  lemma ColorPiece(hasColor: bool, hex: string)
    ensures Continued(Optional(hasColor, Attribute("color", "#" + hex))) == if hasColor then "\" color=\"#" + hex else ""
  {
    OptionalPiece(hasColor, "color", "#" + hex, "\" color=\"");
    assert "\" color=\"" + ("#" + hex) == "\" color=\"#" + hex;
  }

  lemma FlagPiece(present: bool, name: string, text: string)
    requires text == "\" " + name + "=\"true"
    ensures Continued(Optional(present, Attribute(name, "true"))) == if present then text else ""
  {
    ContinuedOptional(present, Attribute(name, "true"));
  }

  lemma Continued4(f: seq<Attribute>, c: seq<Attribute>, b: seq<Attribute>, i: seq<Attribute>)
    ensures Continued(f + c + b + i) == Continued(f) + Continued(c) + Continued(b) + Continued(i)
  {
    ContinuedAppend(f + c + b, i);
    ContinuedAppend(f + c, b);
    ContinuedAppend(f, c);
  }

  lemma FontPieces(hasFace: bool, face: string, hasColor: bool, hex: string, bold: bool, italic: bool)
    ensures Continued(Optional(hasFace, Attribute("face", face)) + Optional(hasColor, Attribute("color", "#" + hex))
                      + Optional(bold, Attribute("bold", "true")) + Optional(italic, Attribute("italic", "true")))
         == (if hasFace then "\" face=\"" + face else "") + (if hasColor then "\" color=\"#" + hex else "")
            + (if bold then "\" bold=\"true" else "") + (if italic then "\" italic=\"true" else "")
  {
    Continued4(Optional(hasFace, Attribute("face", face)), Optional(hasColor, Attribute("color", "#" + hex)),
               Optional(bold, Attribute("bold", "true")), Optional(italic, Attribute("italic", "true")));
    FontLeads();
    OptionalPiece(hasFace, "face", face, "\" face=\"");
    ColorPiece(hasColor, hex);
    FlagPiece(bold, "bold", "\" bold=\"true");
    FlagPiece(italic, "italic", "\" italic=\"true");
  }

  /** How the optional font attributes begin. */
  lemma FontLeads()
    ensures "\" face=\"" == "\" " + "face" + "=\""
    ensures "\" bold=\"true" == "\" " + "bold" + "=\"true"
    ensures "\" italic=\"true" == "\" " + "italic" + "=\"true"
  {
  }

  lemma FirstThenFour(a: seq<Attribute>, f: seq<Attribute>, c: seq<Attribute>, b: seq<Attribute>, i: seq<Attribute>)
    ensures a + f + c + b + i == a + (f + c + b + i)
  {
  }

  lemma FontSpelled(size: string, hasFace: bool, face: string, hasColor: bool, hex: string, bold: bool, italic: bool)
    ensures "    <font size=\"" + size
            + (if hasFace then "\" face=\"" + face else "") + (if hasColor then "\" color=\"#" + hex else "")
            + (if bold then "\" bold=\"true" else "") + (if italic then "\" italic=\"true" else "") + "\">\n"
         == "    " + StartTag("font", [Attribute("size", size)]
                + Optional(hasFace, Attribute("face", face)) + Optional(hasColor, Attribute("color", "#" + hex))
                + Optional(bold, Attribute("bold", "true")) + Optional(italic, Attribute("italic", "true"))) + "\n"
  {
    var rest := Optional(hasFace, Attribute("face", face)) + Optional(hasColor, Attribute("color", "#" + hex))
                + Optional(bold, Attribute("bold", "true")) + Optional(italic, Attribute("italic", "true"));
    FirstThenFour([Attribute("size", size)], Optional(hasFace, Attribute("face", face)), Optional(hasColor, Attribute("color", "#" + hex)),
      Optional(bold, Attribute("bold", "true")), Optional(italic, Attribute("italic", "true")));
    StartTagWritten("font", Attribute("size", size), rest);
    FontPieces(hasFace, face, hasColor, hex, bold, italic);
    FontRegroup(size, if hasFace then "\" face=\"" + face else "", if hasColor then "\" color=\"#" + hex else "",
                if bold then "\" bold=\"true" else "", if italic then "\" italic=\"true" else "");
  }

  /** The text of `change_font` after the closing tag is one `font` start tag and a line break. */
  lemma FontOpenIsTag(face: string, size: int, color: int, bold: bool, italic: bool)
    ensures FontOpen(face, size, color, bold, italic) == "    " + StartTag("font", FontAttributes(face, size, color, bold, italic)) + "\n"
  {
    FontSpelled(Decimal(size), |face| > 0, CString(face), color != 0, HexDigits(color, 6), bold, italic);
  }

  lemma MetatagSpelled(t: string, m: string)
    ensures "  <" + t + ">" + m + "</" + t + ">\n" == "  " + StartTag(t, []) + m + EndTag(t) + "\n"
  {
    assert AttributesText([]) == "";
  }

  /** The text of `add_metatag` is one element named by the tag, holding the converted value. */
  lemma MetatagIsElement(tag: string, value: string)
    ensures Metatag(tag, value)
         == "  " + StartTag(CString(tag), []) + CString(TextEncoding.MetaText(value)) + EndTag(CString(tag)) + "\n"
  {
    MetatagSpelled(CString(tag), CString(TextEncoding.MetaText(value)));
  }

  // ------------------------------------------------------- reading back

  /** Names the reader and the scanner recover, values that hold no markup, no quote and no NUL. */
  predicate SafeAttributes(attrs: seq<Attribute>)
  {
    forall i :: 0 <= i < |attrs| ==> PlainName(attrs[i].name) && AttributeSafe(attrs[i].value)
  }

  lemma SafeAttributesUsable(attrs: seq<Attribute>)
    requires SafeAttributes(attrs)
    ensures ReadableAttributes(attrs) && ScannableAttributes(attrs)
  {
  }

  lemma SafeAppend(a: seq<Attribute>, b: seq<Attribute>)
    requires SafeAttributes(a) && SafeAttributes(b)
    ensures SafeAttributes(a + b)
  {
    forall i | 0 <= i < |a + b|
      ensures PlainName((a + b)[i].name) && AttributeSafe((a + b)[i].value)
    {
      if i >= |a| {
        assert (a + b)[i] == b[i - |a|];
      }
    }
  }

  lemma DecimalSafe(n: int)
    ensures AttributeSafe(Decimal(n))
  {
    DecimalAlphabet(n);
  }

  lemma HexSafe(n: int, count: nat)
    ensures AttributeSafe("#" + HexDigits(n, count))
  {
    HexRoundTrip(n, count);
    var s := "#" + HexDigits(n, count);
    forall i | 0 <= i < |s| ensures s[i] != '<' && s[i] != '>' && s[i] != '"' && s[i] != '\0'
    {
      if i > 0 {
        assert s[i] == HexDigits(n, count)[i - 1];
      }
    }
  }

  lemma BoundsSafe(r: Rect)
    ensures SafeAttributes(BoundsAttributes(r))
  {
    BoundsNames();
    DecimalSafe(r.x);
    DecimalSafe(r.y);
    DecimalSafe(r.width);
    DecimalSafe(r.height);
  }

  /** The four position attributes read back as the rectangle's numbers. */
  predicate HoldsBounds(attrs: seq<Attribute>, r: Rect)
  {
    && IntAttribute(attrs, "x") == Some(r.x) && IntAttribute(attrs, "y") == Some(r.y)
    && IntAttribute(attrs, "width") == Some(r.width) && IntAttribute(attrs, "height") == Some(r.height)
  }

  lemma BoundsRead(r: Rect, more: seq<Attribute>)
    ensures HoldsBounds(BoundsAttributes(r) + more, r)
  {
    BoundsLookup(Decimal(r.x), Decimal(r.y), Decimal(r.width), Decimal(r.height), more);
    DecimalCanonical(r.x);
    DecimalCanonical(r.y);
    DecimalCanonical(r.width);
    DecimalCanonical(r.height);
  }

  /** The four bounds are found first, whatever attributes follow them. */
  lemma BoundsLookup(x: string, y: string, width: string, height: string, more: seq<Attribute>)
    ensures var attrs := BoundsOf(x, y, width, height) + more;
      && Lookup(attrs, "x") == Some(x) && Lookup(attrs, "y") == Some(y)
      && Lookup(attrs, "width") == Some(width) && Lookup(attrs, "height") == Some(height)
  {
    var b := BoundsOf(x, y, width, height);
    LookupAppend(b, more, "x");
    LookupAppend(b, more, "y");
    LookupAppend(b, more, "width");
    LookupAppend(b, more, "height");
    assert Lookup(b, "width") == Lookup(b[1..], "width") == Lookup(b[2..], "width");
    assert Lookup(b, "height") == Lookup(b[2..], "height") == Lookup(b[3..], "height");
  }

  lemma DropIndent(indent: string, t: string, rest: string)
    ensures (indent + t + rest)[|indent|..] == t + rest
  {
  }

  lemma DropIndentElement(indent: string, t: string, content: string, close: string)
    ensures (indent + t + content + close + "\n")[|indent|..] == t + (content + close + "\n")
  {
  }

  /** An indented start tag reads back as that tag, whatever follows it. */
  lemma ReadIndentedStart(indent: string, name: string, attrs: seq<Attribute>, rest: string, whole: string)
    requires whole == indent + StartTag(name, attrs) + rest
    requires PlainName(name) && ReadableAttributes(attrs)
    ensures ReadTag(whole[|indent|..]) == Some((Start(name, attrs), rest))
  {
    DropIndent(indent, StartTag(name, attrs), rest);
    ReadStartTag(name, attrs, rest);
  }

  /** An indented empty-element tag reads back as that tag, whatever follows it. */
  lemma ReadIndentedEmpty(indent: string, name: string, attrs: seq<Attribute>, rest: string, whole: string)
    requires whole == indent + EmptyTag(name, attrs) + rest
    requires PlainName(name) && ReadableAttributes(attrs)
    ensures ReadTag(whole[|indent|..]) == Some((Empty(name, attrs), rest))
  {
    DropIndent(indent, EmptyTag(name, attrs), rest);
    ReadEmptyTag(name, attrs, rest);
  }

  lemma ReadIndentedEmptyEnd(indent: string, name: string, attrs: seq<Attribute>, whole: string)
    requires whole == indent + EmptyTag(name, attrs)
    requires PlainName(name) && ReadableAttributes(attrs)
    ensures ReadTag(whole[|indent|..]) == Some((Empty(name, attrs), ""))
  {
    assert whole == indent + EmptyTag(name, attrs) + "";
    ReadIndentedEmpty(indent, name, attrs, "", whole);
  }

  /** An indented element on one line reads back as its start tag, followed by its content and end tag. */
  lemma ReadIndentedElement(indent: string, name: string, attrs: seq<Attribute>, content: string, whole: string)
    requires whole == indent + StartTag(name, attrs) + content + EndTag(name) + "\n"
    requires PlainName(name) && ReadableAttributes(attrs)
    ensures ReadTag(whole[|indent|..]) == Some((Start(name, attrs), content + EndTag(name) + "\n"))
  {
    DropIndentElement(indent, StartTag(name, attrs), content, EndTag(name));
    ReadStartTag(name, attrs, content + EndTag(name) + "\n");
  }

  lemma DocumentNames()
    ensures PlainName("pdf2xml") && PlainName("pages")
  {
  }

  lemma PageNames()
    ensures PlainName("page") && PlainName("width") && PlainName("height")
  {
  }

  lemma FontNames()
    ensures PlainName("font") && PlainName("size") && PlainName("face")
    ensures PlainName("color") && PlainName("bold") && PlainName("italic")
  {
  }

  lemma BoundsNames()
    ensures PlainName("x") && PlainName("y") && PlainName("width") && PlainName("height")
  {
  }

  lemma LinkNames()
    ensures PlainName("link") && PlainName("dest_page") && PlainName("dest_x") && PlainName("dest_y")
    ensures PlainName("href")
  {
  }

  lemma BlockNames()
    ensures PlainName("text") && PlainName("img") && PlainName("src")
  {
  }

  lemma DocumentSafe(nbPages: int)
    ensures SafeAttributes(DocumentAttributes(nbPages))
  {
    DocumentNames();
    DecimalSafe(nbPages);
  }

  lemma PageSafe(width: int, height: int)
    ensures SafeAttributes(PageAttributes(width, height))
  {
    PageNames();
    DecimalSafe(width);
    DecimalSafe(height);
  }

  lemma LinkSafe(r: Rect, destPage: int, destX: int, destY: int)
    ensures SafeAttributes(LinkAttributes(r, destPage, destX, destY))
  {
    var more := [Attribute("dest_page", Decimal(destPage)), Attribute("dest_x", Decimal(destX)), Attribute("dest_y", Decimal(destY))];
    LinkNames();
    BoundsSafe(r);
    DecimalSafe(destPage);
    DecimalSafe(destX);
    DecimalSafe(destY);
    SafeAppend(BoundsAttributes(r), more);
  }

  lemma UrlSafe(r: Rect, url: string)
    requires AttributeSafe(CString(url))
    ensures SafeAttributes(UrlAttributes(r, url))
  {
    LinkNames();
    BoundsSafe(r);
    OneSafe("href", CString(url));
    SafeAppend(BoundsAttributes(r), [Attribute("href", CString(url))]);
  }

  lemma ImageSafe(r: Rect, filename: string)
    requires AttributeSafe(CString(filename))
    ensures SafeAttributes(ImageAttributes(r, filename))
  {
    BlockNames();
    BoundsSafe(r);
    OneSafe("src", CString(filename));
    SafeAppend(BoundsAttributes(r), [Attribute("src", CString(filename))]);
  }

  /** The document tag reads back as `pdf2xml` with the page count. */
  lemma DocumentOpenReadsBack(nbPages: int)
    ensures ReadTag(DocumentOpen(nbPages)) == Some((Start("pdf2xml", DocumentAttributes(nbPages)), "\n"))
    ensures IntAttribute(DocumentAttributes(nbPages), "pages") == Some(nbPages)
  {
    DocumentOpenIsTag(nbPages);
    DocumentSafe(nbPages);
    SafeAttributesUsable(DocumentAttributes(nbPages));
    DocumentNames();
    DecimalCanonical(nbPages);
    ReadIndentedStart("", "pdf2xml", DocumentAttributes(nbPages), "\n", DocumentOpen(nbPages));
  }

  lemma PageOpenRead(width: int, height: int)
    ensures ReadTag(PageOpen(width, height)[2..]) == Some((Start("page", PageAttributes(width, height)), "\n"))
  {
    PageOpenIsTag(width, height);
    PageSafe(width, height);
    SafeAttributesUsable(PageAttributes(width, height));
    PageNames();
    ReadIndentedStart("  ", "page", PageAttributes(width, height), "\n", PageOpen(width, height));
  }

  lemma PageValues(width: int, height: int)
    ensures IntAttribute(PageAttributes(width, height), "width") == Some(width)
    ensures IntAttribute(PageAttributes(width, height), "height") == Some(height)
  {
    var attrs := PageAttributes(width, height);
    DecimalCanonical(width);
    DecimalCanonical(height);
    assert Lookup(attrs, "height") == Lookup(attrs[1..], "height");
  }

  /** The page tag reads back as `page` with the width and height that were written. */
  lemma PageOpenReadsBack(width: int, height: int)
    ensures ReadTag(PageOpen(width, height)[2..]) == Some((Start("page", PageAttributes(width, height)), "\n"))
    ensures IntAttribute(PageAttributes(width, height), "width") == Some(width)
    ensures IntAttribute(PageAttributes(width, height), "height") == Some(height)
  {
    PageOpenRead(width, height);
    PageValues(width, height);
  }

  lemma LookupOptional(present: bool, a: Attribute, name: string)
    ensures Lookup(Optional(present, a), name) == if present && a.name == name then Some(a.value) else None
  {
  }

  /** A lookup in five concatenated lists, first list first. */
  lemma LookupFive(a: seq<Attribute>, f: seq<Attribute>, c: seq<Attribute>, b: seq<Attribute>, i: seq<Attribute>, name: string)
    ensures Lookup(a + f + c + b + i, name)
         == if Lookup(a, name).Some? then Lookup(a, name)
            else if Lookup(f, name).Some? then Lookup(f, name)
            else if Lookup(c, name).Some? then Lookup(c, name)
            else if Lookup(b, name).Some? then Lookup(b, name)
            else Lookup(i, name)
  {
    LookupAppend(a + f + c + b, i, name);
    LookupAppend(a + f + c, b, name);
    LookupAppend(a + f, c, name);
    LookupAppend(a, f, name);
  }

  lemma FontLookup(face: string, size: int, color: int, bold: bool, italic: bool, name: string)
    ensures Lookup(FontAttributes(face, size, color, bold, italic), name)
         == if name == "size" then Some(Decimal(size))
            else if name == "face" && |face| > 0 then Some(CString(face))
            else if name == "color" && color != 0 then Some("#" + HexDigits(color, 6))
            else if (name == "bold" && bold) || (name == "italic" && italic) then Some("true")
            else None
  {
    var a, f := [Attribute("size", Decimal(size))], Optional(|face| > 0, Attribute("face", CString(face)));
    var c := Optional(color != 0, Attribute("color", "#" + HexDigits(color, 6)));
    var b, i := Optional(bold, Attribute("bold", "true")), Optional(italic, Attribute("italic", "true"));
    LookupFive(a, f, c, b, i, name);
    LookupOptional(|face| > 0, Attribute("face", CString(face)), name);
    LookupOptional(color != 0, Attribute("color", "#" + HexDigits(color, 6)), name);
    LookupOptional(bold, Attribute("bold", "true"), name);
    LookupOptional(italic, Attribute("italic", "true"), name);
  }

  lemma ReadableAppend(a: seq<Attribute>, b: seq<Attribute>)
    requires ReadableAttributes(a) && ReadableAttributes(b)
    ensures ReadableAttributes(a + b)
  {
    assert forall k :: |a| <= k < |a + b| ==> (a + b)[k] == b[k - |a|];
  }

  lemma OptionalReadable(present: bool, a: Attribute)
    requires PlainName(a.name) && '"' !in a.value
    ensures ReadableAttributes(Optional(present, a))
  {
  }

  lemma FontSafe(face: string, size: int, color: int, bold: bool, italic: bool)
    requires '"' !in CString(face)
    ensures ReadableAttributes(FontAttributes(face, size, color, bold, italic))
  {
    FontNames();
    DecimalSafe(size);
    HexSafe(color, 6);
    var a, f := [Attribute("size", Decimal(size))], Optional(|face| > 0, Attribute("face", CString(face)));
    var c := Optional(color != 0, Attribute("color", "#" + HexDigits(color, 6)));
    var b, i := Optional(bold, Attribute("bold", "true")), Optional(italic, Attribute("italic", "true"));
    OptionalReadable(|face| > 0, Attribute("face", CString(face)));
    OptionalReadable(color != 0, Attribute("color", "#" + HexDigits(color, 6)));
    OptionalReadable(bold, Attribute("bold", "true"));
    OptionalReadable(italic, Attribute("italic", "true"));
    ReadableAppend(a, f);
    ReadableAppend(a + f, c);
    ReadableAppend(a + f + c, b);
    ReadableAppend(a + f + c + b, i);
  }

  lemma FontOpenRead(face: string, size: int, color: int, bold: bool, italic: bool)
    requires '"' !in CString(face)
    ensures ReadTag(FontOpen(face, size, color, bold, italic)[4..])
         == Some((Start("font", FontAttributes(face, size, color, bold, italic)), "\n"))
  {
    FontOpenIsTag(face, size, color, bold, italic);
    FontSafe(face, size, color, bold, italic);
    FontNames();
    ReadIndentedStart("    ", "font", FontAttributes(face, size, color, bold, italic), "\n", FontOpen(face, size, color, bold, italic));
  }

  lemma FontValues(face: string, size: int, color: int, bold: bool, italic: bool)
    ensures var attrs := FontAttributes(face, size, color, bold, italic);
      && IntAttribute(attrs, "size") == Some(size)
      && Lookup(attrs, "face") == (if |face| > 0 then Some(CString(face)) else None)
      && Lookup(attrs, "color").Some? == (color != 0)
      && (color != 0 ==> |Lookup(attrs, "color").value| == 7 && Lookup(attrs, "color").value[0] == '#'
                          && HexValue(Lookup(attrs, "color").value[1..]) == color % 0x100_0000)
      && Lookup(attrs, "bold") == (if bold then Some("true") else None)
      && Lookup(attrs, "italic") == (if italic then Some("true") else None)
  {
    FontSizeValue(face, size, color, bold, italic);
    FontLookup(face, size, color, bold, italic, "face");
    FontColorValue(face, size, color, bold, italic);
    FontLookup(face, size, color, bold, italic, "bold");
    FontLookup(face, size, color, bold, italic, "italic");
  }

  lemma FontSizeValue(face: string, size: int, color: int, bold: bool, italic: bool)
    ensures IntAttribute(FontAttributes(face, size, color, bold, italic), "size") == Some(size)
  {
    FontLookup(face, size, color, bold, italic, "size");
    DecimalCanonical(size);
  }

  lemma FontColorValue(face: string, size: int, color: int, bold: bool, italic: bool)
    ensures var v := Lookup(FontAttributes(face, size, color, bold, italic), "color");
      && v.Some? == (color != 0)
      && (color != 0 ==> |v.value| == 7 && v.value[0] == '#' && HexValue(v.value[1..]) == color % 0x100_0000)
  {
    FontLookup(face, size, color, bold, italic, "color");
    ColorText(color);
  }

  /** The colour attribute's value: '#' and six digits that read back to the low 24 bits. */
  lemma ColorText(color: int)
    ensures var v := "#" + HexDigits(color, 6);
      |v| == 7 && v[0] == '#' && HexValue(v[1..]) == color % 0x100_0000
  {
    HexRoundTrip(color, 6);
    assert Pow16(6) == 0x100_0000;
    assert ("#" + HexDigits(color, 6))[1..] == HexDigits(color, 6);
  }

  /**
   * The font tag reads back as `font`: the size, the face exactly when it
   * is non-empty, the colour exactly when it is not zero (six hexadecimal
   * digits holding its low 24 bits), `bold` and `italic` exactly when set.
   * A face holding a quote would end its attribute early, hence the requires.
   */
  lemma FontOpenReadsBack(face: string, size: int, color: int, bold: bool, italic: bool)
    requires '"' !in CString(face)
    ensures var attrs := FontAttributes(face, size, color, bold, italic);
      && ReadTag(FontOpen(face, size, color, bold, italic)[4..]) == Some((Start("font", attrs), "\n"))
      && IntAttribute(attrs, "size") == Some(size)
      && Lookup(attrs, "face") == (if |face| > 0 then Some(CString(face)) else None)
      && Lookup(attrs, "color").Some? == (color != 0)
      && (color != 0 ==> |Lookup(attrs, "color").value| == 7 && Lookup(attrs, "color").value[0] == '#'
                          && HexValue(Lookup(attrs, "color").value[1..]) == color % 0x100_0000)
      && Lookup(attrs, "bold") == (if bold then Some("true") else None)
      && Lookup(attrs, "italic") == (if italic then Some("true") else None)
  {
    FontOpenRead(face, size, color, bold, italic);
    FontValues(face, size, color, bold, italic);
  }

  lemma BoundsLack(r: Rect, more: seq<Attribute>, name: string)
    requires name != "x" && name != "y" && name != "width" && name != "height"
    ensures Lookup(BoundsAttributes(r) + more, name) == Lookup(more, name)
  {
    LookupAppend(BoundsAttributes(r), more, name);
  }

  lemma PageLinkRead(r: Rect, destPage: int, destX: int, destY: int)
    ensures ReadTag(PageLink(r, destPage, destX, destY)[6..])
         == Some((Empty("link", LinkAttributes(r, destPage, destX, destY)), ""))
  {
    PageLinkIsTag(r, destPage, destX, destY);
    LinkSafe(r, destPage, destX, destY);
    SafeAttributesUsable(LinkAttributes(r, destPage, destX, destY));
    LinkNames();
    ReadIndentedEmptyEnd("      ", "link", LinkAttributes(r, destPage, destX, destY), PageLink(r, destPage, destX, destY));
  }

  lemma PageLinkValues(r: Rect, destPage: int, destX: int, destY: int)
    ensures var attrs := LinkAttributes(r, destPage, destX, destY);
      && HoldsBounds(attrs, r) && IntAttribute(attrs, "dest_page") == Some(destPage)
      && IntAttribute(attrs, "dest_x") == Some(destX) && IntAttribute(attrs, "dest_y") == Some(destY)
  {
    var more := [Attribute("dest_page", Decimal(destPage)), Attribute("dest_x", Decimal(destX)), Attribute("dest_y", Decimal(destY))];
    BoundsRead(r, more);
    BoundsLack(r, more, "dest_page");
    BoundsLack(r, more, "dest_x");
    BoundsLack(r, more, "dest_y");
    assert Lookup(more, "dest_y") == Lookup(more[1..], "dest_y") == Lookup(more[2..], "dest_y");
    DecimalCanonical(destPage);
    DecimalCanonical(destX);
    DecimalCanonical(destY);
  }

  /**
   * A link to a page reads back as an empty `link` element holding the
   * rectangle and the destination page and point that were written.
   */
  lemma PageLinkReadsBack(r: Rect, destPage: int, destX: int, destY: int)
    ensures var attrs := LinkAttributes(r, destPage, destX, destY);
      && ReadTag(PageLink(r, destPage, destX, destY)[6..]) == Some((Empty("link", attrs), ""))
      && HoldsBounds(attrs, r) && IntAttribute(attrs, "dest_page") == Some(destPage)
      && IntAttribute(attrs, "dest_x") == Some(destX) && IntAttribute(attrs, "dest_y") == Some(destY)
  {
    PageLinkRead(r, destPage, destX, destY);
    PageLinkValues(r, destPage, destX, destY);
  }

  lemma OneSafe(name: string, v: string)
    requires PlainName(name) && AttributeSafe(v)
    ensures SafeAttributes([Attribute(name, v)])
  {
  }

  lemma UrlLinkRead(r: Rect, url: string)
    requires AttributeSafe(CString(url))
    ensures ReadTag(UrlLink(r, url)[6..]) == Some((Empty("link", UrlAttributes(r, url)), ""))
  {
    UrlLinkIsTag(r, url);
    UrlSafe(r, url);
    SafeAttributesUsable(UrlAttributes(r, url));
    LinkNames();
    ReadIndentedEmptyEnd("      ", "link", UrlAttributes(r, url), UrlLink(r, url));
  }

  /** A link to a URL reads back as an empty `link` element holding the rectangle and the URL. */
  lemma UrlLinkReadsBack(r: Rect, url: string)
    requires AttributeSafe(CString(url))
    ensures var attrs := UrlAttributes(r, url);
      && ReadTag(UrlLink(r, url)[6..]) == Some((Empty("link", attrs), ""))
      && HoldsBounds(attrs, r) && Lookup(attrs, "href") == Some(CString(url))
  {
    UrlLinkRead(r, url);
    BoundsRead(r, [Attribute("href", CString(url))]);
    BoundsLack(r, [Attribute("href", CString(url))], "href");
  }

  lemma ImageBlockRead(filename: string, r: Rect)
    requires AttributeSafe(CString(filename))
    ensures ReadTag(ImageBlock(filename, r)[6..]) == Some((Empty("img", ImageAttributes(r, filename)), "\n"))
  {
    ImageBlockIsTag(filename, r);
    ImageSafe(r, filename);
    SafeAttributesUsable(ImageAttributes(r, filename));
    BlockNames();
    ReadIndentedEmpty("      ", "img", ImageAttributes(r, filename), "\n", ImageBlock(filename, r));
  }

  /** An image block reads back as an empty `img` element holding the rectangle and the file name. */
  lemma ImageBlockReadsBack(filename: string, r: Rect)
    requires AttributeSafe(CString(filename))
    ensures var attrs := ImageAttributes(r, filename);
      && ReadTag(ImageBlock(filename, r)[6..]) == Some((Empty("img", attrs), "\n"))
      && HoldsBounds(attrs, r) && Lookup(attrs, "src") == Some(CString(filename))
  {
    ImageBlockRead(filename, r);
    BoundsRead(r, [Attribute("src", CString(filename))]);
    BoundsLack(r, [Attribute("src", CString(filename))], "src");
  }

  lemma TextBlockRead(str: string, r: Rect)
    ensures ReadTag(TextBlock(str, r)[6..])
         == Some((Start("text", BoundsAttributes(r)), CString(str) + EndTag("text") + "\n"))
  {
    TextBlockIsElement(str, r);
    BoundsSafe(r);
    SafeAttributesUsable(BoundsAttributes(r));
    BlockNames();
    ReadIndentedElement("      ", "text", BoundsAttributes(r), CString(str), TextBlock(str, r));
  }

  /**
   * A text block reads back as a `text` start tag holding the rectangle,
   * followed by the text itself and the end tag.
   */
  lemma TextBlockReadsBack(str: string, r: Rect)
    ensures ReadTag(TextBlock(str, r)[6..])
         == Some((Start("text", BoundsAttributes(r)), CString(str) + EndTag("text") + "\n"))
    ensures HoldsBounds(BoundsAttributes(r), r)
  {
    TextBlockRead(str, r);
    BoundsRead(r, []);
    assert BoundsAttributes(r) + [] == BoundsAttributes(r);
  }

  /** A metadata element reads back as a start tag named by the tag, then the converted value and the end tag. */
  lemma MetatagReadsBack(tag: string, value: string)
    requires PlainName(CString(tag))
    ensures ReadTag(Metatag(tag, value)[2..])
         == Some((Start(CString(tag), []), CString(TextEncoding.MetaText(value)) + EndTag(CString(tag)) + "\n"))
  {
    MetatagIsElement(tag, value);
    ReadIndentedElement("  ", CString(tag), [], CString(TextEncoding.MetaText(value)), Metatag(tag, value));
  }

  // ------------------------------------------------------- nesting

  lemma ScannableAppend(a: seq<Attribute>, b: seq<Attribute>)
    requires ScannableAttributes(a) && ScannableAttributes(b)
    ensures ScannableAttributes(a + b)
  {
    forall i | 0 <= i < |a + b|
      ensures PlainName((a + b)[i].name) && MarkupFree((a + b)[i].value)
    {
      if i >= |a| {
        assert (a + b)[i] == b[i - |a|];
      }
    }
  }

  /** Text around a tag that holds no `<` leaves the scanner where the tag leaves it. */
  lemma Around(open: seq<string>, indent: string, t: string, tail: string, after: seq<string>)
    requires '<' !in indent && '<' !in tail && Run(Inside(open), t) == Inside(after)
    ensures Run(Inside(open), indent + t + tail) == Inside(after)
  {
    RunAppend(Inside(open), indent + t, tail);
    RunAppend(Inside(open), indent, t);
    RunText(open, indent);
    RunText(after, tail);
  }

  lemma RunClose(open: seq<string>, indent: string, name: string)
    requires '<' !in indent && PlainName(name)
    ensures Run(Inside(open + [name]), indent + EndTag(name) + "\n") == Inside(open)
  {
    RunEndTag(open + [name], name);
    assert (open + [name])[..|open|] == open;
    Around(open + [name], indent, EndTag(name), "\n", open);
  }

  /** The closing texts close the innermost element of their name. */
  lemma RunFontClose(open: seq<string>)
    ensures Run(Inside(open + ["font"]), FontClose) == Inside(open)
  {
    assert FontClose == "    " + EndTag("font") + "\n";
    RunClose(open, "    ", "font");
  }

  lemma RunPageClose(open: seq<string>)
    ensures Run(Inside(open + ["page"]), PageClose) == Inside(open)
  {
    assert PageClose == "  " + EndTag("page") + "\n";
    RunClose(open, "  ", "page");
  }

  lemma RunDocumentClose(open: seq<string>)
    ensures Run(Inside(open + ["pdf2xml"]), DocumentClose) == Inside(open)
  {
    assert DocumentClose == "" + EndTag("pdf2xml") + "\n";
    RunClose(open, "", "pdf2xml");
  }

  /** The declaration opens nothing. */
  lemma DeclarationSpelled()
    ensures XmlDeclaration == "" + ("<" + DeclarationBody + ">") + "\n"
  {
  }

  lemma DeclarationBodyFree()
    ensures MarkupFree(DeclarationBody) && DeclarationBody[0] == '?'
  {
    VersionFree();
    EncodingFree();
  }

  lemma VersionFree()
    ensures MarkupFree(DeclarationVersion) && '\0' !in DeclarationVersion && DeclarationVersion[0] == '?'
  {
  }

  lemma EncodingFree()
    ensures MarkupFree(DeclarationEncoding) && '\0' !in DeclarationEncoding
  {
  }

  lemma RunDeclaration(open: seq<string>)
    ensures Run(Inside(open), XmlDeclaration) == Inside(open)
  {
    DeclarationSpelled();
    DeclarationBodyFree();
    RunTag(open, DeclarationBody);
    Around(open, "", "<" + DeclarationBody + ">", "\n", open);
  }

  lemma RunDocumentOpen(open: seq<string>, nbPages: int)
    ensures Run(Inside(open), DocumentOpen(nbPages)) == Inside(open + ["pdf2xml"])
  {
    DocumentOpenIsTag(nbPages);
    DocumentSafe(nbPages);
    SafeAttributesUsable(DocumentAttributes(nbPages));
    DocumentNames();
    RunStartLine(open, "", "pdf2xml", DocumentAttributes(nbPages), DocumentOpen(nbPages));
  }

  lemma RunPageOpen(open: seq<string>, width: int, height: int)
    ensures Run(Inside(open), PageOpen(width, height)) == Inside(open + ["page"])
  {
    PageOpenIsTag(width, height);
    PageSafe(width, height);
    SafeAttributesUsable(PageAttributes(width, height));
    PageNames();
    RunStartLine(open, "  ", "page", PageAttributes(width, height), PageOpen(width, height));
  }

  lemma OptionalScannable(present: bool, a: Attribute)
    requires PlainName(a.name) && MarkupFree(a.value)
    ensures ScannableAttributes(Optional(present, a))
  {
  }

  lemma FontScannable(face: string, size: int, color: int, bold: bool, italic: bool)
    requires MarkupFree(CString(face))
    ensures ScannableAttributes(FontAttributes(face, size, color, bold, italic))
  {
    var a, f := [Attribute("size", Decimal(size))], Optional(|face| > 0, Attribute("face", CString(face)));
    var c := Optional(color != 0, Attribute("color", "#" + HexDigits(color, 6)));
    var b, i := Optional(bold, Attribute("bold", "true")), Optional(italic, Attribute("italic", "true"));
    FontNames();
    DecimalSafe(size);
    HexSafe(color, 6);
    OptionalScannable(true, Attribute("size", Decimal(size)));
    OptionalScannable(|face| > 0, Attribute("face", CString(face)));
    OptionalScannable(color != 0, Attribute("color", "#" + HexDigits(color, 6)));
    OptionalScannable(bold, Attribute("bold", "true"));
    OptionalScannable(italic, Attribute("italic", "true"));
    ScannableAppend(a, f);
    ScannableAppend(a + f, c);
    ScannableAppend(a + f + c, b);
    ScannableAppend(a + f + c + b, i);
  }

  lemma RunFontOpen(open: seq<string>, face: string, size: int, color: int, bold: bool, italic: bool)
    requires MarkupFree(CString(face))
    ensures Run(Inside(open), FontOpen(face, size, color, bold, italic)) == Inside(open + ["font"])
  {
    FontOpenIsTag(face, size, color, bold, italic);
    FontScannable(face, size, color, bold, italic);
    FontNames();
    RunStartLine(open, "    ", "font", FontAttributes(face, size, color, bold, italic), FontOpen(face, size, color, bold, italic));
  }

  lemma RunEmptyElement(open: seq<string>, indent: string, name: string, attrs: seq<Attribute>, tail: string, whole: string)
    requires whole == indent + EmptyTag(name, attrs) + tail
    requires '<' !in indent && PlainName(name) && ScannableAttributes(attrs) && '<' !in tail
    ensures Run(Inside(open), whole) == Inside(open)
  {
    RunEmptyTag(open, name, attrs);
    Around(open, indent, EmptyTag(name, attrs), tail, open);
  }

  lemma RunEmptyElementEnd(open: seq<string>, indent: string, name: string, attrs: seq<Attribute>, whole: string)
    requires whole == indent + EmptyTag(name, attrs)
    requires '<' !in indent && PlainName(name) && ScannableAttributes(attrs)
    ensures Run(Inside(open), whole) == Inside(open)
  {
    assert whole == indent + EmptyTag(name, attrs) + "";
    RunEmptyElement(open, indent, name, attrs, "", whole);
  }

  /** A start tag on a line of its own pushes its name. */
  lemma RunStartLine(open: seq<string>, indent: string, name: string, attrs: seq<Attribute>, whole: string)
    requires whole == indent + StartTag(name, attrs) + "\n"
    requires '<' !in indent && PlainName(name) && ScannableAttributes(attrs)
    ensures Run(Inside(open), whole) == Inside(open + [name])
  {
    RunStartTag(open, name, attrs);
    Around(open, indent, StartTag(name, attrs), "\n", open + [name]);
  }


  lemma RunPageLink(open: seq<string>, r: Rect, destPage: int, destX: int, destY: int)
    ensures Run(Inside(open), PageLink(r, destPage, destX, destY)) == Inside(open)
  {
    PageLinkIsTag(r, destPage, destX, destY);
    LinkSafe(r, destPage, destX, destY);
    SafeAttributesUsable(LinkAttributes(r, destPage, destX, destY));
    LinkNames();
    RunEmptyElementEnd(open, "      ", "link", LinkAttributes(r, destPage, destX, destY), PageLink(r, destPage, destX, destY));
  }

  lemma RunUrlLink(open: seq<string>, r: Rect, url: string)
    requires MarkupFree(CString(url))
    ensures Run(Inside(open), UrlLink(r, url)) == Inside(open)
  {
    UrlLinkIsTag(r, url);
    BoundsSafe(r);
    SafeAttributesUsable(BoundsAttributes(r));
    LinkNames();
    OptionalScannable(true, Attribute("href", CString(url)));
    ScannableAppend(BoundsAttributes(r), [Attribute("href", CString(url))]);
    RunEmptyElementEnd(open, "      ", "link", UrlAttributes(r, url), UrlLink(r, url));
  }

  lemma RunImageBlock(open: seq<string>, filename: string, r: Rect)
    requires MarkupFree(CString(filename))
    ensures Run(Inside(open), ImageBlock(filename, r)) == Inside(open)
  {
    ImageBlockIsTag(filename, r);
    BoundsSafe(r);
    SafeAttributesUsable(BoundsAttributes(r));
    BlockNames();
    OptionalScannable(true, Attribute("src", CString(filename)));
    ScannableAppend(BoundsAttributes(r), [Attribute("src", CString(filename))]);
    RunEmptyElement(open, "      ", "img", ImageAttributes(r, filename), "\n", ImageBlock(filename, r));
  }

  /** An element with text content: the start tag opens it, the text is passed over, the end tag closes it. */
  lemma RunElement(open: seq<string>, indent: string, name: string, attrs: seq<Attribute>, content: string)
    requires '<' !in indent && '<' !in content && PlainName(name) && ScannableAttributes(attrs)
    ensures Run(Inside(open), indent + StartTag(name, attrs) + content + EndTag(name) + "\n") == Inside(open)
  {
    var st := Inside(open);
    RunAppend(st, indent + StartTag(name, attrs) + content, EndTag(name) + "\n");
    RunAppend(st, indent + StartTag(name, attrs), content);
    RunStartTag(open, name, attrs);
    Around(open, indent, StartTag(name, attrs), "", open + [name]);
    assert indent + StartTag(name, attrs) + "" == indent + StartTag(name, attrs);
    RunText(open + [name], content);
    RunClose(open, "", name);
    assert "" + EndTag(name) + "\n" == EndTag(name) + "\n";
    assert indent + StartTag(name, attrs) + content + EndTag(name) + "\n"
        == indent + StartTag(name, attrs) + content + (EndTag(name) + "\n");
  }

  lemma RunTextBlock(open: seq<string>, str: string, r: Rect)
    requires '<' !in CString(str)
    ensures Run(Inside(open), TextBlock(str, r)) == Inside(open)
  {
    TextBlockIsElement(str, r);
    BoundsSafe(r);
    SafeAttributesUsable(BoundsAttributes(r));
    BlockNames();
    RunElement(open, "      ", "text", BoundsAttributes(r), CString(str));
  }

  lemma RunMetatag(open: seq<string>, tag: string, value: string)
    requires PlainName(CString(tag))
    ensures Run(Inside(open), Metatag(tag, value)) == Inside(open)
  {
    var m := TextEncoding.MetaText(value);
    TextEncoding.MetaTextClean(value);
    assert CString(m) == m[..|CString(m)|];
    assert '<' !in CString(m);
    MetatagIsElement(tag, value);
    RunElement(open, "  ", CString(tag), [], CString(m));
  }

  // ------------------------------------------------------- the writer's state

  /** The elements left open by the writer's flags, outermost first. */
  function Stack(document: bool, page: bool, font: bool): seq<string>
  {
    (if document then ["pdf2xml"] else []) + (if page then ["page"] else []) + (if font then ["font"] else [])
  }

  /** What `start_page`, `change_font` and the end of the document write to close the open font and page. */
  function Closings(page: bool, font: bool): string
  {
    (if font then FontClose else "") + (if page then PageClose else "")
  }

  lemma FontClosing(document: bool, page: bool, font: bool)
    ensures Run(Inside(Stack(document, page, font)), if font then FontClose else "") == Inside(Stack(document, page, false))
  {
    if font {
      assert Stack(document, page, true) == Stack(document, page, false) + ["font"];
      RunFontClose(Stack(document, page, false));
    }
  }

  lemma PageClosing(document: bool, page: bool)
    ensures Run(Inside(Stack(document, page, false)), if page then PageClose else "") == Inside(Stack(document, false, false))
  {
    if page {
      assert Stack(document, true, false) == Stack(document, false, false) + ["page"];
      RunPageClose(Stack(document, false, false));
    }
  }

  lemma RunClosings(document: bool, page: bool, font: bool)
    ensures Run(Inside(Stack(document, page, font)), Closings(page, font)) == Inside(Stack(document, false, false))
  {
    RunAppend(Inside(Stack(document, page, font)), if font then FontClose else "", if page then PageClose else "");
    FontClosing(document, page, font);
    PageClosing(document, page);
  }

  /**
   * Text that keeps the scanner inside the same elements, appended to a
   * well-nested output, keeps it well nested.
   */
  lemma StackKept(before: string, chunk: string, open: seq<string>)
    requires Run(Inside([]), before) == Inside(open) && Run(Inside(open), chunk) == Inside(open)
    ensures Run(Inside([]), before + chunk) == Inside(open)
  {
    RunAppend(Inside([]), before, chunk);
  }

  /** `start_page` closes the open font and page and leaves exactly one page open. */
  lemma StartPageNesting(before: string, document: bool, page: bool, font: bool, width: int, height: int)
    requires Run(Inside([]), before) == Inside(Stack(document, page, font))
    ensures Run(Inside([]), before + Closings(page, font) + PageOpen(width, height)) == Inside(Stack(document, true, false))
  {
    RunAppend(Inside([]), before + Closings(page, font), PageOpen(width, height));
    RunAppend(Inside([]), before, Closings(page, font));
    RunClosings(document, page, font);
    RunPageOpen(Stack(document, false, false), width, height);
    assert Stack(document, false, false) + ["page"] == Stack(document, true, false);
  }

  /** `change_font` closes the open font and opens the new one inside the same page. */
  lemma ChangeFontNesting(before: string, document: bool, page: bool, font: bool,
                          face: string, size: int, color: int, bold: bool, italic: bool)
    requires Run(Inside([]), before) == Inside(Stack(document, page, font))
    requires MarkupFree(CString(face))
    ensures Run(Inside([]), before + Closings(false, font) + FontOpen(face, size, color, bold, italic))
         == Inside(Stack(document, page, true))
  {
    RunAppend(Inside([]), before + Closings(false, font), FontOpen(face, size, color, bold, italic));
    RunAppend(Inside([]), before, Closings(false, font));
    if font {
      assert Stack(document, page, true) == Stack(document, page, false) + ["font"];
      RunFontClose(Stack(document, page, false));
      RunAppend(Inside(Stack(document, page, true)), FontClose, "");
    }
    RunFontOpen(Stack(document, page, false), face, size, color, bold, italic);
    assert Stack(document, page, false) + ["font"] == Stack(document, page, true);
  }

  /** The end of the document closes the font, the page and the document: nothing is left open. */
  lemma FinishNesting(before: string, page: bool, font: bool)
    requires Run(Inside([]), before) == Inside(Stack(true, page, font))
    ensures Run(Inside([]), before + Closings(page, font) + DocumentClose) == Inside([])
  {
    RunAppend(Inside([]), before + Closings(page, font), DocumentClose);
    RunAppend(Inside([]), before, Closings(page, font));
    RunClosings(true, page, font);
    assert Stack(true, false, false) == [] + ["pdf2xml"];
    RunDocumentClose([]);
  }

  /** The start of the document opens `pdf2xml`; the title element inside it closes again. */
  lemma BeginNesting(before: string, nbPages: int, title: Option<string>)
    requires Run(Inside([]), before) == Inside([])
    ensures Run(Inside([]), before + DocumentOpen(nbPages)) == Inside(["pdf2xml"])
    ensures Run(Inside([]), before + DocumentOpen(nbPages) + (if title.Some? then Metatag("title", title.value) else ""))
         == Inside(["pdf2xml"])
  {
    RunAppend(Inside([]), before, DocumentOpen(nbPages));
    RunDocumentOpen([], nbPages);
    assert [] + ["pdf2xml"] == ["pdf2xml"];
    if title.Some? {
      assert CString("title") == "title";
      RunMetatag(["pdf2xml"], "title", title.value);
      StackKept(before + DocumentOpen(nbPages), Metatag("title", title.value), ["pdf2xml"]);
    } else {
      assert before + DocumentOpen(nbPages) + "" == before + DocumentOpen(nbPages);
    }
  }

  lemma {:induction false} CStringPlain(s: string)
    requires '\0' !in s
    ensures CString(s) == s
  {
    if s != [] {
      CStringPlain(s[1..]);
    }
  }

  /**
   * The colour digits of `change_font`: digit i is
   * `HEXADECIMAL_CHARACTERS[(color >> ((5 - i) << 2)) & 0x0F]`.
   */
  method ColorNumber(color: int) returns (number: string)
    ensures number == HexDigits(color, 6)
  {
    var digits := new char[6];
    var i := 0;
    while i < 6
      invariant 0 <= i <= 6
      invariant forall k :: 0 <= k < i ==> digits[k] == HexDigits(color, 6)[k]
    {
      HexDigitAt(color, 6, i);
      digits[i] := HexChars[(color / Pow16(5 - i)) % 16];
      i := i + 1;
    }
    number := digits[..];
  }

  // ------------------------------------------------------- the writes

  /**
   * One call of the overloaded `write`: a literal of the writer's own
   * (never holding a NUL), text from the caller (written up to its first
   * NUL), or a number.
   */
  datatype Piece = Literal(text: string) | Chars(chars: string) | Number(value: int)

  function Emitted(p: Piece): string
  {
    match p
    case Literal(t) => t
    case Chars(s) => CString(s)
    case Number(n) => Decimal(n)
  }

  predicate Writable(p: Piece)
  {
    match p
    case Literal(t) => '\0' !in t
    case Chars(_) => true
    case Number(n) => Printable(n)
  }

  /** The text a sequence of writes appends to the file. */
  function Written(ps: seq<Piece>): string
  {
    if ps == [] then "" else Written(ps[..|ps| - 1]) + Emitted(ps[|ps| - 1])
  }

  lemma {:induction false} WrittenAppend(a: seq<Piece>, b: seq<Piece>)
    ensures Written(a + b) == Written(a) + Written(b)
    decreases |b|
  {
    if b == [] {
      assert a + b == a;
    } else {
      var b', p := b[..|b| - 1], b[|b| - 1];
      assert b == b' + [p];
      assert a + b == (a + b') + [p];
      WrittenSnoc(a + b', p);
      WrittenSnoc(b', p);
      WrittenAppend(a, b');
      TextEncoding.Assoc(Written(a), Written(b'), Emitted(p));
    }
  }

  lemma Written1(p: Piece)
    ensures Written([p]) == Emitted(p)
  {
    assert [p][..0] == [];
  }

  lemma WrittenSnoc(ps: seq<Piece>, p: Piece)
    ensures Written(ps + [p]) == Written(ps) + Emitted(p)
  {
    assert (ps + [p])[..|ps|] == ps;
  }

  /** One more write of a run appends what it emits. */
  lemma WrittenStep(start: string, ps: seq<Piece>, i: nat)
    requires i < |ps|
    ensures start + Written(ps[..i]) + Emitted(ps[i]) == start + Written(ps[..i + 1])
  {
    assert ps[..i + 1] == ps[..i] + [ps[i]];
    WrittenSnoc(ps[..i], ps[i]);
  }

  lemma WrittenAll(ps: seq<Piece>)
    ensures Written(ps[..|ps|]) == Written(ps)
  {
    assert ps[..|ps|] == ps;
  }

  lemma Written2(p0: Piece, p1: Piece)
    ensures Written([p0, p1]) == Emitted(p0) + Emitted(p1)
  {
    Written1(p0);
    WrittenSnoc([p0], p1);
    assert [p0] + [p1] == [p0, p1];
  }

  /** All writes of a sequence are possible: literals without NUL, numbers that fit. */
  predicate AllWritable(ps: seq<Piece>)
  {
    forall i :: 0 <= i < |ps| ==> Writable(ps[i])
  }

  // The sequences of writes of each output function. They are built by
  // appending one write at a time, as the source issues them, so that
  // their text unfolds write by write (WrittenSnoc).

  function DocumentOpenPieces(nbPages: int): seq<Piece>
  {
    [Literal("<pdf2xml pages=\"")] + [Number(nbPages)] + [Literal("\">\n")]
  }

  function PageOpenPieces(width: int, height: int): seq<Piece>
  {
    [Literal("  <page width=\"")] + [Number(width)] + [Literal("\" height=\"")] + [Number(height)] + [Literal("\">\n")]
  }

  /** WRITE_BOUNDS. */
  function BoundsPieces(r: Rect): seq<Piece>
  {
    [Number(r.x)] + [Literal("\" y=\"")] + [Number(r.y)] + [Literal("\" width=\"")] + [Number(r.width)]
    + [Literal("\" height=\"")] + [Number(r.height)]
  }

  function FacePieces(face: string): seq<Piece>
  {
    if |face| > 0 then [Literal("\" face=\""), Chars(face)] else []
  }

  function ColorPieces(color: int): seq<Piece>
  {
    if color != 0 then [Literal("\" color=\"#"), Literal(HexDigits(color, 6))] else []
  }

  function FlagPieces(flag: bool, text: string): seq<Piece>
  {
    if flag then [Literal(text)] else []
  }

  function FontOpenPieces(face: string, size: int, color: int, bold: bool, italic: bool): seq<Piece>
  {
    [Literal("    <font size=\"")] + [Number(size)] + FacePieces(face) + ColorPieces(color)
    + FlagPieces(bold, "\" bold=\"true") + FlagPieces(italic, "\" italic=\"true") + [Literal("\">\n")]
  }

  function PageLinkPieces(r: Rect, destPage: int, destX: int, destY: int): seq<Piece>
  {
    [Literal("      <link x=\"")] + BoundsPieces(r) + [Literal("\" dest_page=\"")] + [Number(destPage)]
    + [Literal("\" dest_x=\"")] + [Number(destX)] + [Literal("\" dest_y=\"")] + [Number(destY)] + [Literal("\"/>")]
  }

  function UrlLinkPieces(r: Rect, url: string): seq<Piece>
  {
    [Literal("      <link x=\"")] + BoundsPieces(r) + [Literal("\" href=\"")] + [Chars(url)] + [Literal("\"/>")]
  }

  function TextBlockPieces(str: string, r: Rect): seq<Piece>
  {
    [Literal("      <text x=\"")] + BoundsPieces(r) + [Literal("\">")] + [Chars(str)] + [Literal("</text>\n")]
  }

  function ImageBlockPieces(filename: string, r: Rect): seq<Piece>
  {
    [Literal("      <img x=\"")] + BoundsPieces(r) + [Literal("\" src=\"")] + [Chars(filename)] + [Literal("\"/>\n")]
  }

  /** `add_metatag` writes the converted value as a C string. */
  function MetatagPieces(tag: string, converted: string): seq<Piece>
  {
    [Literal("  <")] + [Chars(tag)] + [Literal(">")] + [Chars(converted)] + [Literal("</")] + [Chars(tag)] + [Literal(">\n")]
  }

  lemma WrittenThen2(ps: seq<Piece>, p0: Piece, p1: Piece)
    ensures Written(ps + [p0] + [p1]) == Written(ps) + Emitted(p0) + Emitted(p1)
  {
    WrittenSnoc(ps, p0);
    WrittenSnoc(ps + [p0], p1);
  }

  lemma WrittenThen3(ps: seq<Piece>, p0: Piece, p1: Piece, p2: Piece)
    ensures Written(ps + [p0] + [p1] + [p2]) == Written(ps) + Emitted(p0) + Emitted(p1) + Emitted(p2)
  {
    WrittenThen2(ps, p0, p1);
    WrittenSnoc(ps + [p0] + [p1], p2);
  }

  lemma WrittenThen4(ps: seq<Piece>, p0: Piece, p1: Piece, p2: Piece, p3: Piece)
    ensures Written(ps + [p0] + [p1] + [p2] + [p3])
         == Written(ps) + Emitted(p0) + Emitted(p1) + Emitted(p2) + Emitted(p3)
  {
    WrittenThen3(ps, p0, p1, p2);
    WrittenSnoc(ps + [p0] + [p1] + [p2], p3);
  }

  lemma WrittenThen6(ps: seq<Piece>, p0: Piece, p1: Piece, p2: Piece, p3: Piece, p4: Piece, p5: Piece)
    ensures Written(ps + [p0] + [p1] + [p2] + [p3] + [p4] + [p5])
         == Written(ps) + Emitted(p0) + Emitted(p1) + Emitted(p2) + Emitted(p3) + Emitted(p4) + Emitted(p5)
  {
    WrittenThen4(ps, p0, p1, p2, p3);
    WrittenThen2(ps + [p0] + [p1] + [p2] + [p3], p4, p5);
  }

  lemma WrittenThen7(ps: seq<Piece>, p0: Piece, p1: Piece, p2: Piece, p3: Piece, p4: Piece, p5: Piece, p6: Piece)
    ensures Written(ps + [p0] + [p1] + [p2] + [p3] + [p4] + [p5] + [p6])
         == Written(ps) + Emitted(p0) + Emitted(p1) + Emitted(p2) + Emitted(p3) + Emitted(p4) + Emitted(p5) + Emitted(p6)
  {
    WrittenThen6(ps, p0, p1, p2, p3, p4, p5);
    WrittenSnoc(ps + [p0] + [p1] + [p2] + [p3] + [p4] + [p5], p6);
  }

  lemma DocumentOpenWritten(nbPages: int)
    ensures Written(DocumentOpenPieces(nbPages)) == DocumentOpen(nbPages)
  {
    var p0 := Literal("<pdf2xml pages=\"");
    Written1(p0);
    WrittenThen2([p0], Number(nbPages), Literal("\">\n"));
  }

  lemma PageOpenWritten(width: int, height: int)
    ensures Written(PageOpenPieces(width, height)) == PageOpen(width, height)
  {
    var p0 := Literal("  <page width=\"");
    Written1(p0);
    WrittenThen4([p0], Number(width), Literal("\" height=\""), Number(height), Literal("\">\n"));
  }

  lemma BoundsWritten(r: Rect)
    ensures Written(BoundsPieces(r)) == Bounds(r)
  {
    Written1(Number(r.x));
    WrittenThen6([Number(r.x)], Literal("\" y=\""), Number(r.y), Literal("\" width=\""), Number(r.width),
      Literal("\" height=\""), Number(r.height));
  }

  lemma LinkStartWritten(open: string, r: Rect)
    ensures Written([Literal(open)] + BoundsPieces(r)) == open + Bounds(r)
  {
    Written1(Literal(open));
    WrittenAppend([Literal(open)], BoundsPieces(r));
    BoundsWritten(r);
  }

  lemma PageLinkWritten(r: Rect, destPage: int, destX: int, destY: int)
    ensures Written(PageLinkPieces(r, destPage, destX, destY)) == PageLink(r, destPage, destX, destY)
  {
    var start := [Literal("      <link x=\"")] + BoundsPieces(r);
    LinkStartWritten("      <link x=\"", r);
    WrittenThen7(start, Literal("\" dest_page=\""), Number(destPage), Literal("\" dest_x=\""), Number(destX),
      Literal("\" dest_y=\""), Number(destY), Literal("\"/>"));
  }

  lemma UrlLinkWritten(r: Rect, url: string)
    ensures Written(UrlLinkPieces(r, url)) == UrlLink(r, url)
  {
    LinkStartWritten("      <link x=\"", r);
    WrittenThen3([Literal("      <link x=\"")] + BoundsPieces(r), Literal("\" href=\""), Chars(url), Literal("\"/>"));
  }

  lemma TextBlockWritten(str: string, r: Rect)
    ensures Written(TextBlockPieces(str, r)) == TextBlock(str, r)
  {
    LinkStartWritten("      <text x=\"", r);
    WrittenThen3([Literal("      <text x=\"")] + BoundsPieces(r), Literal("\">"), Chars(str), Literal("</text>\n"));
  }

  lemma ImageBlockWritten(filename: string, r: Rect)
    ensures Written(ImageBlockPieces(filename, r)) == ImageBlock(filename, r)
  {
    LinkStartWritten("      <img x=\"", r);
    WrittenThen3([Literal("      <img x=\"")] + BoundsPieces(r), Literal("\" src=\""), Chars(filename), Literal("\"/>\n"));
  }

  lemma MetatagWritten(tag: string, value: string)
    ensures Written(MetatagPieces(tag, TextEncoding.MetaText(value))) == Metatag(tag, value)
  {
    Written1(Literal("  <"));
    WrittenThen6([Literal("  <")], Chars(tag), Literal(">"), Chars(TextEncoding.MetaText(value)), Literal("</"),
      Chars(tag), Literal(">\n"));
  }

  lemma WrittenAppend5(a: seq<Piece>, b: seq<Piece>, c: seq<Piece>, d: seq<Piece>, e: seq<Piece>, p: Piece)
    ensures Written(a + b + c + d + e + [p]) == Written(a) + Written(b) + Written(c) + Written(d) + Written(e) + Emitted(p)
  {
    WrittenAppend(a, b);
    WrittenAppend(a + b, c);
    WrittenAppend(a + b + c, d);
    WrittenAppend(a + b + c + d, e);
    WrittenSnoc(a + b + c + d + e, p);
  }

  lemma FaceWritten(face: string)
    ensures Written(FacePieces(face)) == FaceText(face)
  {
    Written2(Literal("\" face=\""), Chars(face));
  }

  lemma ColorWritten(color: int)
    ensures Written(ColorPieces(color)) == ColorAttributeText(color)
  {
    Written2(Literal("\" color=\"#"), Literal(HexDigits(color, 6)));
  }

  lemma FlagWritten(flag: bool, text: string)
    ensures Written(FlagPieces(flag, text)) == FlagText(flag, text)
  {
    Written1(Literal(text));
  }

  /** The writes of a font tag, over any literals and optional parts. */
  lemma FontShapeWritten(head: string, size: int, f: seq<Piece>, c: seq<Piece>, b: seq<Piece>, i: seq<Piece>, tail: string)
    ensures Written([Literal(head)] + [Number(size)] + f + c + b + i + [Literal(tail)])
         == head + Decimal(size) + Written(f) + Written(c) + Written(b) + Written(i) + tail
  {
    Written1(Literal(head));
    WrittenSnoc([Literal(head)], Number(size));
    WrittenAppend5([Literal(head)] + [Number(size)], f, c, b, i, Literal(tail));
  }

  lemma FontOpenWritten(face: string, size: int, color: int, bold: bool, italic: bool)
    ensures Written(FontOpenPieces(face, size, color, bold, italic)) == FontOpen(face, size, color, bold, italic)
  {
    FaceWritten(face);
    ColorWritten(color);
    FlagWritten(bold, "\" bold=\"true");
    FlagWritten(italic, "\" italic=\"true");
    FontShapeWritten("    <font size=\"", size, FacePieces(face), ColorPieces(color),
      FlagPieces(bold, "\" bold=\"true"), FlagPieces(italic, "\" italic=\"true"), "\">\n");
  }

  lemma DeclarationPlain()
    ensures '\0' !in XmlDeclaration
  {
    VersionFree();
    EncodingFree();
  }

  lemma DeclarationNesting(before: string, open: seq<string>)
    requires Run(Inside([]), before) == Inside(open)
    ensures Run(Inside([]), before + XmlDeclaration) == Inside(open)
  {
    RunDeclaration(open);
    StackKept(before, XmlDeclaration, open);
  }

  lemma AllWritableAppend(a: seq<Piece>, b: seq<Piece>)
    requires AllWritable(a) && AllWritable(b)
    ensures AllWritable(a + b)
  {
    assert forall i :: |a| <= i < |a + b| ==> (a + b)[i] == b[i - |a|];
  }

  lemma DocumentOpenWritable(nbPages: int)
    requires Printable(nbPages)
    ensures AllWritable(DocumentOpenPieces(nbPages))
  {
  }

  lemma PageOpenWritable(width: int, height: int)
    requires Printable(width) && Printable(height)
    ensures AllWritable(PageOpenPieces(width, height))
  {
  }

  lemma BoundsWritable(r: Rect)
    requires PrintableRect(r)
    ensures AllWritable(BoundsPieces(r))
  {
  }

  lemma HexPlain(color: int)
    ensures '\0' !in HexDigits(color, 6)
  {
    HexSafe(color, 6);
    var h := HexDigits(color, 6);
    assert forall k :: 0 <= k < |h| ==> h[k] == ("#" + h)[k + 1];
  }

  lemma FaceWritable(face: string)
    ensures AllWritable(FacePieces(face))
  {
    FaceLiteralPlain();
  }

  lemma FaceLiteralPlain()
    ensures '\0' !in "\" face=\""
  {
  }

  lemma ColorWritable(color: int)
    ensures AllWritable(ColorPieces(color))
  {
    HexPlain(color);
    ColorLiteralPlain();
  }

  lemma ColorLiteralPlain()
    ensures '\0' !in "\" color=\"#"
  {
  }

  lemma FlagWritable(flag: bool, text: string)
    requires '\0' !in text
    ensures AllWritable(FlagPieces(flag, text))
  {
  }

  lemma FlagLiteralsPlain()
    ensures '\0' !in "\" bold=\"true" && '\0' !in "\" italic=\"true"
  {
  }

  lemma FontEndsPlain()
    ensures '\0' !in "    <font size=\"" && '\0' !in "\">\n"
  {
  }

  lemma AllWritableAppend5(a: seq<Piece>, b: seq<Piece>, c: seq<Piece>, d: seq<Piece>, e: seq<Piece>, p: Piece)
    requires AllWritable(a) && AllWritable(b) && AllWritable(c) && AllWritable(d) && AllWritable(e) && Writable(p)
    ensures AllWritable(a + b + c + d + e + [p])
  {
    AllWritableAppend(a, b);
    AllWritableAppend(a + b, c);
    AllWritableAppend(a + b + c, d);
    AllWritableAppend(a + b + c + d, e);
    AllWritableSnoc(a + b + c + d + e, p);
  }

  lemma FontOpenWritable(face: string, size: int, color: int, bold: bool, italic: bool)
    requires Printable(size)
    ensures AllWritable(FontOpenPieces(face, size, color, bold, italic))
  {
    FontEndsPlain();
    FlagLiteralsPlain();
    FaceWritable(face);
    ColorWritable(color);
    FlagWritable(bold, "\" bold=\"true");
    FlagWritable(italic, "\" italic=\"true");
    AllWritableSnoc([Literal("    <font size=\"")], Number(size));
    AllWritableAppend5([Literal("    <font size=\"")] + [Number(size)], FacePieces(face), ColorPieces(color),
      FlagPieces(bold, "\" bold=\"true"), FlagPieces(italic, "\" italic=\"true"), Literal("\">\n"));
  }

  /** An element that starts with an opening literal and the WRITE_BOUNDS sequence and ends with `tail`. */
  lemma BoundedWritable(open: string, r: Rect, tail: seq<Piece>)
    requires '\0' !in open && PrintableRect(r) && AllWritable(tail)
    ensures AllWritable([Literal(open)] + BoundsPieces(r) + tail)
  {
    BoundsWritable(r);
    AllWritableAppend([Literal(open)], BoundsPieces(r));
    AllWritableAppend([Literal(open)] + BoundsPieces(r), tail);
  }

  lemma AllWritableSnoc(ps: seq<Piece>, p: Piece)
    requires AllWritable(ps) && Writable(p)
    ensures AllWritable(ps + [p])
  {
  }

  lemma PageLinkWritable(r: Rect, destPage: int, destX: int, destY: int)
    requires PrintableRect(r) && Printable(destPage) && Printable(destX) && Printable(destY)
    ensures AllWritable(PageLinkPieces(r, destPage, destX, destY))
  {
    var p0 := [Literal("      <link x=\"")] + BoundsPieces(r);
    BoundedWritable("      <link x=\"", r, []);
    assert p0 + [] == p0;
    var p1 := p0 + [Literal("\" dest_page=\"")];
    AllWritableSnoc(p0, Literal("\" dest_page=\""));
    var p2 := p1 + [Number(destPage)];
    AllWritableSnoc(p1, Number(destPage));
    var p3 := p2 + [Literal("\" dest_x=\"")];
    AllWritableSnoc(p2, Literal("\" dest_x=\""));
    var p4 := p3 + [Number(destX)];
    AllWritableSnoc(p3, Number(destX));
    var p5 := p4 + [Literal("\" dest_y=\"")];
    AllWritableSnoc(p4, Literal("\" dest_y=\""));
    var p6 := p5 + [Number(destY)];
    AllWritableSnoc(p5, Number(destY));
    AllWritableSnoc(p6, Literal("\"/>"));
  }

  lemma UrlLinkWritable(r: Rect, url: string)
    requires PrintableRect(r)
    ensures AllWritable(UrlLinkPieces(r, url))
  {
    var tail := [Literal("\" href=\"")] + [Chars(url)] + [Literal("\"/>")];
    BoundedWritable("      <link x=\"", r, tail);
    assert UrlLinkPieces(r, url) == [Literal("      <link x=\"")] + BoundsPieces(r) + tail;
  }

  lemma TextBlockWritable(str: string, r: Rect)
    requires PrintableRect(r)
    ensures AllWritable(TextBlockPieces(str, r))
  {
    var tail := [Literal("\">")] + [Chars(str)] + [Literal("</text>\n")];
    BoundedWritable("      <text x=\"", r, tail);
    assert TextBlockPieces(str, r) == [Literal("      <text x=\"")] + BoundsPieces(r) + tail;
  }

  lemma ImageBlockWritable(filename: string, r: Rect)
    requires PrintableRect(r)
    ensures AllWritable(ImageBlockPieces(filename, r))
  {
    var tail := [Literal("\" src=\"")] + [Chars(filename)] + [Literal("\"/>\n")];
    BoundedWritable("      <img x=\"", r, tail);
    assert ImageBlockPieces(filename, r) == [Literal("      <img x=\"")] + BoundsPieces(r) + tail;
  }

  lemma MetatagWritable(tag: string, converted: string)
    ensures AllWritable(MetatagPieces(tag, converted))
  {
  }

  lemma ClosingsPlain()
    ensures '\0' !in FontClose && '\0' !in PageClose && '\0' !in DocumentClose
  {
  }

  /** What an element leaves open is what was open before it. */
  lemma ElementNesting(before: string, chunk: string, open: seq<string>)
    requires Run(Inside([]), before) == Inside(open) && Run(Inside(open), chunk) == Inside(open)
    ensures Run(Inside([]), before + chunk) == Inside(open)
  {
    StackKept(before, chunk, open);
  }

  /**
   * `XmlOutput`. `out` is everything written to the file so far.
   * `documentOpened` records what `load_from_pdf` knows from its control
   * flow: that the `pdf2xml` element is open.
   */
  class XmlOutput {
    var out: string
    var pageOpened: bool
    var fontOpened: bool
    ghost var documentOpened: bool

    ghost function OpenElements(): seq<string>
      reads this
    {
      Stack(documentOpened, pageOpened, fontOpened)
    }

    /** Everything written so far is well nested and leaves open exactly the elements the flags record. */
    ghost predicate Nested()
      reads this
    {
      Run(Inside([]), out) == Inside(OpenElements())
    }

    constructor ()
      ensures out == "" && !pageOpened && !fontOpened && !documentOpened
      ensures Nested()
    {
      out := "";
      pageOpened := false;
      fontOpened := false;
      documentOpened := false;
    }

    /** `write(const char*)`: the characters before the first NUL. */
    method Write(content: string)
      modifies this
      ensures out == old(out) + CString(content)
      ensures pageOpened == old(pageOpened) && fontOpened == old(fontOpened) && documentOpened == old(documentOpened)
    {
      out := out + CString(content);
    }

    /** `write(const char*)` of one of the writer's own literals, which hold no NUL: all of it. */
    method WriteText(text: string)
      requires '\0' !in text
      modifies this
      ensures out == old(out) + text
      ensures pageOpened == old(pageOpened) && fontOpened == old(fontOpened) && documentOpened == old(documentOpened)
    {
      CStringPlain(text);
      Write(text);
    }

    /** `write(int)`. */
    method WriteInt(number: int)
      requires Printable(number)
      modifies this
      ensures out == old(out) + Decimal(number)
      ensures pageOpened == old(pageOpened) && fontOpened == old(fontOpened) && documentOpened == old(documentOpened)
    {
      var text := FormatInt(number);
      DecimalSafe(number);
      WriteText(text);
    }

    /** One call of `write`. */
    method WritePiece(piece: Piece)
      requires Writable(piece)
      modifies this
      ensures out == old(out) + Emitted(piece)
      ensures pageOpened == old(pageOpened) && fontOpened == old(fontOpened) && documentOpened == old(documentOpened)
    {
      match piece {
        case Literal(text) => WriteText(text);
        case Chars(content) => Write(content);
        case Number(number) => WriteInt(number);
      }
    }

    /**
     * A straight run of `write` calls, issued in order: each method below
     * lists its calls as a sequence of pieces (PageOpenPieces and the like).
     */
    method WritePieces(pieces: seq<Piece>)
      requires AllWritable(pieces)
      modifies this
      ensures out == old(out) + Written(pieces)
      ensures pageOpened == old(pageOpened) && fontOpened == old(fontOpened) && documentOpened == old(documentOpened)
    {
      ghost var start := out;
      var i := 0;
      while i < |pieces|
        invariant 0 <= i <= |pieces|
        invariant out == start + Written(pieces[..i])
        invariant pageOpened == old(pageOpened) && fontOpened == old(fontOpened) && documentOpened == old(documentOpened)
      {
        WritePiece(pieces[i]);
        WrittenStep(start, pieces, i);
        i := i + 1;
      }
      WrittenAll(pieces);
    }

    /** `open`: the file starts with the XML declaration. */
    method Open()
      modifies this
      ensures out == old(out) + XmlDeclaration
      ensures pageOpened == old(pageOpened) && fontOpened == old(fontOpened) && documentOpened == old(documentOpened)
      ensures old(Nested()) ==> Nested()
    {
      ghost var before, open := out, OpenElements();
      DeclarationPlain();
      WriteText(XmlDeclaration);
      if Run(Inside([]), before) == Inside(open) {
        DeclarationNesting(before, open);
      }
    }

    /** Writes the font end tag when a font is open; no font is open afterwards. */
    method CloseFont()
      modifies this
      ensures out == old(out) + (if old(fontOpened) then FontClose else "")
      ensures !fontOpened && pageOpened == old(pageOpened) && documentOpened == old(documentOpened)
    {
      if fontOpened {
        WriteText("    </font>\n");
      }
      fontOpened := false;
    }

    /** Writes the page end tag when a page is open; no page is open afterwards. */
    method ClosePage()
      modifies this
      ensures out == old(out) + (if old(pageOpened) then PageClose else "")
      ensures !pageOpened && fontOpened == old(fontOpened) && documentOpened == old(documentOpened)
    {
      if pageOpened {
        WriteText("  </page>\n");
      }
      pageOpened := false;
    }

    method WritePageOpen(width: int, height: int)
      requires Printable(width) && Printable(height)
      modifies this
      ensures out == old(out) + PageOpen(width, height)
      ensures pageOpened == old(pageOpened) && fontOpened == old(fontOpened) && documentOpened == old(documentOpened)
    {
      PageOpenWritable(width, height);
      WritePieces(PageOpenPieces(width, height));
      PageOpenWritten(width, height);
    }

    /** `start_page`: closes the open font, then the open page, then opens the new page. */
    method StartPage(width: int, height: int)
      requires Printable(width) && Printable(height)
      modifies this
      ensures out == old(out) + Closings(old(pageOpened), old(fontOpened)) + PageOpen(width, height)
      ensures pageOpened && !fontOpened && documentOpened == old(documentOpened)
      ensures old(Nested()) ==> Nested()
    {
      ghost var before, document, page, font := out, documentOpened, pageOpened, fontOpened;
      CloseFont();
      ClosePage();
      pageOpened := true;
      assert out == before + Closings(page, font);
      WritePageOpen(width, height);
      if Run(Inside([]), before) == Inside(Stack(document, page, font)) {
        StartPageNesting(before, document, page, font, width, height);
      }
    }

    /**
     * The font start tag of `change_font`: the size, then the face when it
     * is non-empty, the colour when it is not zero (its six digits
     * computed by ColorNumber), and `bold` and `italic` when set.
     */
    method WriteFontOpen(face: string, size: int, color: int, bold: bool, italic: bool)
      requires Printable(size)
      modifies this
      ensures out == old(out) + FontOpen(face, size, color, bold, italic)
      ensures pageOpened == old(pageOpened) && fontOpened == old(fontOpened) && documentOpened == old(documentOpened)
    {
      var number := "";
      if color != 0 {
        number := ColorNumber(color);
      }
      var pieces := [Literal("    <font size=\"")] + [Number(size)] + FacePieces(face)
        + (if color != 0 then [Literal("\" color=\"#"), Literal(number)] else [])
        + FlagPieces(bold, "\" bold=\"true") + FlagPieces(italic, "\" italic=\"true") + [Literal("\">\n")];
      assert pieces == FontOpenPieces(face, size, color, bold, italic);
      FontOpenWritable(face, size, color, bold, italic);
      WritePieces(pieces);
      FontOpenWritten(face, size, color, bold, italic);
    }

    /**
     * `change_font`: closes the open font and opens one with the given
     * size, face, colour and style. The caller always passes a face
     * string; a NULL face is written like an empty one.
     */
    method ChangeFont(face: string, size: int, color: int, bold: bool, italic: bool)
      requires Printable(size)
      modifies this
      ensures out == old(out) + Closings(false, old(fontOpened)) + FontOpen(face, size, color, bold, italic)
      ensures fontOpened && pageOpened == old(pageOpened) && documentOpened == old(documentOpened)
      ensures old(Nested()) && MarkupFree(CString(face)) ==> Nested()
    {
      ghost var before, document, page, font := out, documentOpened, pageOpened, fontOpened;
      CloseFont();
      fontOpened := true;
      assert out == before + Closings(false, font);
      WriteFontOpen(face, size, color, bold, italic);
      if Run(Inside([]), before) == Inside(Stack(document, page, font)) && MarkupFree(CString(face)) {
        ChangeFontNesting(before, document, page, font, face, size, color, bold, italic);
      }
    }

    /** `add_link` to a page of the document: an empty `link` element. */
    method AddLink(rect: Rect, destPage: int, destX: int, destY: int)
      requires PrintableRect(rect) && Printable(destPage) && Printable(destX) && Printable(destY)
      modifies this
      ensures out == old(out) + PageLink(rect, destPage, destX, destY)
      ensures pageOpened == old(pageOpened) && fontOpened == old(fontOpened) && documentOpened == old(documentOpened)
      ensures old(Nested()) ==> Nested()
    {
      ghost var before, open := out, OpenElements();
      PageLinkWritable(rect, destPage, destX, destY);
      WritePieces(PageLinkPieces(rect, destPage, destX, destY));
      PageLinkWritten(rect, destPage, destX, destY);
      if Run(Inside([]), before) == Inside(open) {
        RunPageLink(open, rect, destPage, destX, destY);
        ElementNesting(before, PageLink(rect, destPage, destX, destY), open);
      }
    }

    /** `add_link` to a URL: an empty `link` element whose `href` is the URL. */
    method AddLinkUrl(rect: Rect, url: string)
      requires PrintableRect(rect)
      modifies this
      ensures out == old(out) + UrlLink(rect, url)
      ensures pageOpened == old(pageOpened) && fontOpened == old(fontOpened) && documentOpened == old(documentOpened)
      ensures old(Nested()) && MarkupFree(CString(url)) ==> Nested()
    {
      ghost var before, open := out, OpenElements();
      UrlLinkWritable(rect, url);
      WritePieces(UrlLinkPieces(rect, url));
      UrlLinkWritten(rect, url);
      if Run(Inside([]), before) == Inside(open) && MarkupFree(CString(url)) {
        RunUrlLink(open, rect, url);
        ElementNesting(before, UrlLink(rect, url), open);
      }
    }

    /** `add_text_block`: a `text` element holding the text as written by the caller. */
    method AddTextBlock(str: string, rect: Rect)
      requires PrintableRect(rect)
      modifies this
      ensures out == old(out) + TextBlock(str, rect)
      ensures pageOpened == old(pageOpened) && fontOpened == old(fontOpened) && documentOpened == old(documentOpened)
      ensures old(Nested()) && '<' !in CString(str) ==> Nested()
    {
      ghost var before, open := out, OpenElements();
      TextBlockWritable(str, rect);
      WritePieces(TextBlockPieces(str, rect));
      TextBlockWritten(str, rect);
      if Run(Inside([]), before) == Inside(open) && '<' !in CString(str) {
        RunTextBlock(open, str, rect);
        ElementNesting(before, TextBlock(str, rect), open);
      }
    }

    /** `add_image_block`: an empty `img` element whose `src` is the picture file. */
    method AddImageBlock(filename: string, rect: Rect)
      requires PrintableRect(rect)
      modifies this
      ensures out == old(out) + ImageBlock(filename, rect)
      ensures pageOpened == old(pageOpened) && fontOpened == old(fontOpened) && documentOpened == old(documentOpened)
      ensures old(Nested()) && MarkupFree(CString(filename)) ==> Nested()
    {
      ghost var before, open := out, OpenElements();
      ImageBlockWritable(filename, rect);
      WritePieces(ImageBlockPieces(filename, rect));
      ImageBlockWritten(filename, rect);
      if Run(Inside([]), before) == Inside(open) && MarkupFree(CString(filename)) {
        RunImageBlock(open, filename, rect);
        ElementNesting(before, ImageBlock(filename, rect), open);
      }
    }

    /**
     * `add_metatag`: a missing value is an error and writes nothing;
     * otherwise an element named `tag` holding the converted value.
     */
    method AddMetatag(tag: string, value: Option<string>) returns (error: bool)
      modifies this
      ensures error <==> value.None?
      ensures out == old(out) + (if value.Some? then Metatag(tag, value.value) else "")
      ensures pageOpened == old(pageOpened) && fontOpened == old(fontOpened) && documentOpened == old(documentOpened)
      ensures old(Nested()) && PlainName(CString(tag)) ==> Nested()
    {
      if value.None? {
        return true;
      }
      ghost var before, open := out, OpenElements();
      var converted := TextEncoding.ConvertMetaValue(value.value);
      MetatagWritable(tag, converted);
      WritePieces(MetatagPieces(tag, converted));
      MetatagWritten(tag, value.value);
      if Run(Inside([]), before) == Inside(open) && PlainName(CString(tag)) {
        RunMetatag(open, tag, value.value);
        ElementNesting(before, Metatag(tag, value.value), open);
      }
      error := false;
    }

    /**
     * The head of the document in `load_from_pdf`: the `pdf2xml` start tag
     * with the page count, then the title metatag when the document
     * information has a title.
     */
    method BeginDocument(nbPages: int, title: Option<string>)
      requires Printable(nbPages)
      modifies this
      ensures out == old(out) + DocumentOpen(nbPages) + (if title.Some? then Metatag("title", title.value) else "")
      ensures documentOpened && pageOpened == old(pageOpened) && fontOpened == old(fontOpened)
      ensures old(Nested()) && old(OpenElements()) == [] ==> Nested()
    {
      ghost var before, open := out, OpenElements();
      DocumentOpenWritable(nbPages);
      WritePieces(DocumentOpenPieces(nbPages));
      DocumentOpenWritten(nbPages);
      documentOpened := true;
      assert out == before + DocumentOpen(nbPages);
      var _ := AddMetatag("title", title);
      if Run(Inside([]), before) == Inside(open) && open == [] {
        BeginNesting(before, nbPages, title);
      }
    }

    /**
     * The end of the document in `load_from_pdf`: the open font and page
     * are closed, then the `pdf2xml` element.
     */
    method Finish()
      modifies this
      ensures out == old(out) + Closings(old(pageOpened), old(fontOpened)) + DocumentClose
      ensures !pageOpened && !fontOpened && !documentOpened
      ensures old(Nested()) && old(documentOpened) ==> Nested()
    {
      ghost var before, page, font := out, pageOpened, fontOpened;
      ghost var document := documentOpened;
      CloseFont();
      ClosePage();
      assert out == before + Closings(page, font);
      ClosingsPlain();
      WriteText("</pdf2xml>\n");
      documentOpened := false;
      if Run(Inside([]), before) == Inside(Stack(document, page, font)) && document {
        FinishNesting(before, page, font);
      }
    }
  }
}
