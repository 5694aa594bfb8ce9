/**
 * The markup pdf2xml writes: start tags, empty-element tags and end tags
 * with double-quoted attributes, as in section 3.1 of XML 1.0, and two
 * readers of that markup used to state what the writer promises:
 *
 *  - a nesting scanner that follows the open elements of a text from left
 *    to right (a tag ends at its first `>`; `<?...?>` and `<.../>` open
 *    nothing), and
 *  - a tag reader that recovers the element name and the attribute list
 *    from the text of one tag.
 */
module Markup {
  import opened Wrappers

  /** Text that can sit inside a tag or between tags without being taken for markup. */
  predicate MarkupFree(s: string) { '<' !in s && '>' !in s }

  /** A name that the scanner and the reader both recover unchanged. */
  predicate PlainName(n: string) {
    && |n| > 0 && n[0] != '?'
    && forall i :: 0 <= i < |n| ==> n[i] != ' ' && n[i] != '/' && n[i] != '<' && n[i] != '>' && n[i] != '=' && n[i] != '"'
  }

  datatype Attribute = Attribute(name: string, value: string)

  /** Attribute names are plain and values hold no markup: the scanner passes over them. */
  predicate ScannableAttributes(attrs: seq<Attribute>) {
    forall i :: 0 <= i < |attrs| ==> PlainName(attrs[i].name) && MarkupFree(attrs[i].value)
  }

  /** Attribute names are plain and no value holds a quote: the reader recovers them. */
  predicate ReadableAttributes(attrs: seq<Attribute>) {
    forall i :: 0 <= i < |attrs| ==> PlainName(attrs[i].name) && '"' !in attrs[i].value
  }

  /** ` name="value"` for each attribute, in order. */
  function AttributesText(attrs: seq<Attribute>): string
  {
    if attrs == [] then ""
    else " " + attrs[0].name + "=\"" + attrs[0].value + "\"" + AttributesText(attrs[1..])
  }

  function StartTag(name: string, attrs: seq<Attribute>): string { "<" + name + AttributesText(attrs) + ">" }
  function EmptyTag(name: string, attrs: seq<Attribute>): string { "<" + name + AttributesText(attrs) + "/>" }
  function EndTag(name: string): string { "</" + name + ">" }

  /** The value of the first attribute called `name`. */
  function Lookup(attrs: seq<Attribute>, name: string): (r: Option<string>)
    ensures r.Some? <==> exists i :: 0 <= i < |attrs| && attrs[i].name == name
  {
    if attrs == [] then None
    else if attrs[0].name == name then Some(attrs[0].value)
    else
      var r := Lookup(attrs[1..], name);
      assert forall i :: 1 <= i < |attrs| ==> attrs[i] == attrs[1..][i - 1];
      r
  }

  /** A lookup in two lists finds the first list's attribute before the second's. */
  lemma {:induction false} LookupAppend(a: seq<Attribute>, b: seq<Attribute>, name: string)
    ensures Lookup(a + b, name) == if Lookup(a, name).Some? then Lookup(a, name) else Lookup(b, name)
    decreases |a|
  {
    if a == [] {
      assert a + b == b;
    } else {
      assert (a + b)[0] == a[0] && (a + b)[1..] == a[1..] + b;
      LookupAppend(a[1..], b, name);
    }
  }

  /** The number of characters before the first `c`, or |s| without one. */
  function Until(s: string, c: char): (n: nat)
    ensures n <= |s|
    ensures forall i :: 0 <= i < n ==> s[i] != c
    ensures n < |s| ==> s[n] == c
  {
    if s == [] || s[0] == c then 0 else 1 + Until(s[1..], c)
  }

  /** A non-empty attribute text starts with a space and ends with a quote. */
  lemma AttributesTextEnds(attrs: seq<Attribute>)
    requires attrs != []
    ensures |AttributesText(attrs)| > 0 && AttributesText(attrs)[0] == ' '
    ensures AttributesText(attrs)[|AttributesText(attrs)| - 1] == '"'
  {
    var a := attrs[0];
    var t := AttributesText(attrs[1..]);
    assert AttributesText(attrs) == " " + a.name + "=\"" + a.value + "\"" + t;
    if t != [] {
      AttributesTextEnds(attrs[1..]);
    }
  }

  /** Scannable attributes are written without markup characters. */
  lemma {:induction false} AttributesTextMarkupFree(attrs: seq<Attribute>)
    requires ScannableAttributes(attrs)
    ensures MarkupFree(AttributesText(attrs))
  {
    if attrs != [] {
      var a := attrs[0];
      assert ScannableAttributes(attrs[1..]) by {
        forall i | 0 <= i < |attrs[1..]|
          ensures PlainName(attrs[1..][i].name) && MarkupFree(attrs[1..][i].value)
        {
          assert attrs[1..][i] == attrs[i + 1];
        }
      }
      AttributesTextMarkupFree(attrs[1..]);
      assert PlainName(a.name) && MarkupFree(a.value);
      PlainNameMarkupFree(a.name);
      assert AttributesText(attrs) == " " + a.name + "=\"" + a.value + "\"" + AttributesText(attrs[1..]);
    }
  }

  // ---------------------------------------------------------------- nesting

  /**
   * The state of the nesting scanner: the names of the open elements,
   * outermost first; the text of the tag being read, if any; and whether
   * everything so far was well nested.
   */
  datatype ScanState = ScanState(open: seq<string>, tag: Option<string>, ok: bool)

  /** Outside any tag, the given elements open. */
  function Inside(open: seq<string>): ScanState { ScanState(open, None, true) }

  /**
   * The effect of a complete tag with text `b` (between `<` and `>`): an end
   * tag must close the innermost open element; a declaration or an
   * empty-element tag changes nothing; a start tag opens the element named
   * by the text before the first space.
   */
  function CloseTag(open: seq<string>, b: string): ScanState
  {
    if |b| > 0 && b[0] == '/' then
      if |open| > 0 && open[|open| - 1] == b[1..] then Inside(open[..|open| - 1])
      else ScanState(open, None, false)
    else if |b| > 0 && (b[0] == '?' || b[|b| - 1] == '/') then Inside(open)
    else if |b| > 0 && b[0] != ' ' then Inside(open + [b[..Until(b, ' ')]])
    else ScanState(open, None, false)
  }

  function Step(st: ScanState, c: char): ScanState
  {
    if !st.ok then st
    else match st.tag
      case None => if c == '<' then st.(tag := Some("")) else st
      case Some(b) =>
        if c == '>' then CloseTag(st.open, b)
        else if c == '<' then st.(ok := false)
        else st.(tag := Some(b + [c]))
  }

  /** The scanner run over `s` from the state `st`. */
  function Run(st: ScanState, s: string): ScanState
    decreases |s|
  {
    if s == [] then st else Run(Step(st, s[0]), s[1..])
  }

  /** A text scanned in two parts gives the state of the whole. */
  lemma {:induction false} RunAppend(st: ScanState, a: string, b: string)
    ensures Run(st, a + b) == Run(Run(st, a), b)
    decreases |a|
  {
    if a != [] {
      assert (a + b)[0] == a[0] && (a + b)[1..] == a[1..] + b;
      RunAppend(Step(st, a[0]), a[1..], b);
    } else {
      assert a + b == b;
    }
  }

  /** Text without `<` between tags changes nothing. */
  lemma {:induction false} RunText(open: seq<string>, s: string)
    requires '<' !in s
    ensures Run(Inside(open), s) == Inside(open)
  {
    if s != [] {
      assert s[0] != '<' && '<' !in s[1..];
      RunText(open, s[1..]);
    }
  }

  /** Inside a tag, text without markup is collected. */
  lemma {:induction false} RunTagText(open: seq<string>, b: string, s: string)
    requires MarkupFree(s)
    ensures Run(ScanState(open, Some(b), true), s) == ScanState(open, Some(b + s), true)
    decreases |s|
  {
    if s != [] {
      assert s[0] != '<' && s[0] != '>' && MarkupFree(s[1..]);
      RunTagText(open, b + [s[0]], s[1..]);
      assert b + [s[0]] + s[1..] == b + s;
    } else {
      assert b + s == b;
    }
  }

  /** A complete tag `<b>` has the effect CloseTag gives it. */
  lemma RunTag(open: seq<string>, b: string)
    requires MarkupFree(b)
    ensures Run(Inside(open), "<" + b + ">") == CloseTag(open, b)
  {
    RunAppend(Inside(open), "<" + b, ">");
    RunAppend(Inside(open), "<", b);
    assert Run(Inside(open), "<") == ScanState(open, Some(""), true);
    RunTagText(open, "", b);
    assert "" + b == b;
  }

  lemma PlainNameMarkupFree(n: string)
    requires PlainName(n)
    ensures MarkupFree(n)
  {
    forall i | 0 <= i < |n| ensures n[i] != '<' && n[i] != '>' { }
  }

  /** A start tag opens its element. */
  lemma RunStartTag(open: seq<string>, name: string, attrs: seq<Attribute>)
    requires PlainName(name) && ScannableAttributes(attrs)
    ensures Run(Inside(open), StartTag(name, attrs)) == Inside(open + [name])
  {
    var t := AttributesText(attrs);
    var b := name + t;
    AttributesTextMarkupFree(attrs);
    if attrs != [] {
      AttributesTextEnds(attrs);
    }
    PlainNameMarkupFree(name);
    assert StartTag(name, attrs) == "<" + b + ">";
    RunTag(open, b);
    assert b[0] == name[0];
    if t == [] {
      assert b == name && b[|b| - 1] == name[|name| - 1];
    } else {
      assert b[|b| - 1] == t[|t| - 1];
    }
    UntilPrefix(name, t);
    assert b[..|name|] == name;
  }

  /** The first space of `name + t` is the first character of t. */
  lemma UntilPrefix(name: string, t: string)
    requires PlainName(name) && (t == [] || t[0] == ' ')
    ensures Until(name + t, ' ') == |name|
  {
    assert ' ' !in name by {
      forall i | 0 <= i < |name| ensures name[i] != ' ' { }
    }
    if t == [] {
      assert name + t == name;
    } else {
      assert name + t == name + [' '] + t[1..];
      UntilOf(name, ' ', t[1..]);
    }
  }

  /** An empty-element tag leaves the open elements as they are. */
  lemma RunEmptyTag(open: seq<string>, name: string, attrs: seq<Attribute>)
    requires PlainName(name) && ScannableAttributes(attrs)
    ensures Run(Inside(open), EmptyTag(name, attrs)) == Inside(open)
  {
    var b := name + AttributesText(attrs) + "/";
    AttributesTextMarkupFree(attrs);
    PlainNameMarkupFree(name);
    assert EmptyTag(name, attrs) == "<" + b + ">";
    RunTag(open, b);
    assert b[0] == name[0] && b[|b| - 1] == '/';
  }

  /** An end tag closes the innermost element when its name matches, and fails otherwise. */
  lemma RunEndTag(open: seq<string>, name: string)
    requires PlainName(name)
    ensures Run(Inside(open), EndTag(name))
         == if |open| > 0 && open[|open| - 1] == name then Inside(open[..|open| - 1]) else ScanState(open, None, false)
  {
    var b := "/" + name;
    PlainNameMarkupFree(name);
    assert EndTag(name) == "<" + b + ">";
    RunTag(open, b);
    assert b[1..] == name;
  }

  // ---------------------------------------------------------------- reading

  datatype Tag = Start(name: string, attrs: seq<Attribute>) | Empty(name: string, attrs: seq<Attribute>) | End(name: string)

  /** Reads one `name="value"` pair; returns it and the text after the closing quote. */
  function ReadPair(s: string): (r: Option<(Attribute, string)>)
    ensures r.Some? ==> |r.value.1| < |s|
  {
    var k := Until(s, '=');
    var rest := s[k..];
    if |rest| >= 2 && rest[1] == '"' then
      var v := Until(rest[2..], '"');
      if 2 + v < |rest| then Some((Attribute(s[..k], rest[2..2 + v]), rest[3 + v..])) else None
    else None
  }

  /** Reads ` name="value"` pairs; returns them and the text after the last one. */
  function ReadAttributes(s: string): (r: (seq<Attribute>, string))
    decreases |s|
  {
    if |s| > 0 && s[0] == ' ' then
      match ReadPair(s[1..])
      case Some((a, rest)) =>
        var more := ReadAttributes(rest);
        ([a] + more.0, more.1)
      case None => ([], s)
    else ([], s)
  }

  /** Reads the tag at the front of `s`; returns it and the text after it. */
  function ReadTag(s: string): Option<(Tag, string)>
  {
    if |s| >= 2 && s[0] == '<' && s[1] == '/' then
      var n := Until(s[2..], '>');
      if 2 + n < |s| then Some((End(s[2..2 + n]), s[3 + n..])) else None
    else if |s| >= 1 && s[0] == '<' then
      var body := s[1..];
      var n := NameLength(body);
      var (attrs, rest) := ReadAttributes(body[n..]);
      if |rest| >= 1 && rest[0] == '>' then Some((Start(body[..n], attrs), rest[1..]))
      else if |rest| >= 2 && rest[0] == '/' && rest[1] == '>' then Some((Empty(body[..n], attrs), rest[2..]))
      else None
    else None
  }

  /** The length of the element name at the front of `s`: up to a space, `/` or `>`. */
  function NameLength(s: string): (n: nat)
    ensures n <= |s|
  {
    if s == [] || s[0] == ' ' || s[0] == '/' || s[0] == '>' then 0 else 1 + NameLength(s[1..])
  }

  lemma {:induction false} NameLengthOf(name: string, rest: string)
    requires forall i :: 0 <= i < |name| ==> name[i] != ' ' && name[i] != '/' && name[i] != '>'
    requires |rest| > 0 && (rest[0] == ' ' || rest[0] == '/' || rest[0] == '>')
    ensures NameLength(name + rest) == |name|
    decreases |name|
  {
    var s := name + rest;
    if name == [] {
      assert s == rest;
    } else {
      assert s[1..] == name[1..] + rest;
      NameLengthOf(name[1..], rest);
    }
  }

  /** The characters before the first `c` of `a + [c] + b` are `a` when `a` holds no `c`. */
  lemma {:induction false} UntilOf(a: string, c: char, b: string)
    requires c !in a
    ensures Until(a + [c] + b, c) == |a|
    decreases |a|
  {
    var s := a + [c] + b;
    if a != [] {
      assert s[0] == a[0] && s[1..] == a[1..] + [c] + b;
      UntilOf(a[1..], c, b);
    }
  }

  lemma ReadPairOf(a: Attribute, more: string)
    requires PlainName(a.name) && '"' !in a.value
    ensures ReadPair(a.name + "=\"" + a.value + "\"" + more) == Some((a, more))
  {
    var r := "=\"" + a.value + "\"" + more;
    NameRead(a.name, r);
    assert a.name + "=\"" + a.value + "\"" + more == a.name + r;
    ValueRead(a.value, more);
  }

  /** The name is everything before the first '='. */
  lemma NameRead(name: string, r: string)
    requires PlainName(name) && |r| > 0 && r[0] == '='
    ensures var k := Until(name + r, '=');
      k == |name| && (name + r)[..k] == name && (name + r)[k..] == r
  {
    assert '=' !in name by {
      forall i | 0 <= i < |name| ensures name[i] != '=' { }
    }
    var s := name + r;
    assert r == ['='] + r[1..];
    assert s == name + ['='] + r[1..];
    UntilOf(name, '=', r[1..]);
    assert s[..|name|] == name;
    assert s[|name|..] == r;
  }

  /** After `="` the value runs to the next quote. */
  lemma ValueRead(value: string, more: string)
    requires '"' !in value
    ensures var r := "=\"" + value + "\"" + more;
      var v := Until(r[2..], '"');
      && |r| >= 2 && r[1] == '"' && v == |value| && 2 + v < |r|
      && r[2..2 + v] == value && r[3 + v..] == more
  {
    var r := "=\"" + value + "\"" + more;
    assert r[2..] == value + ['"'] + more;
    UntilOf(value, '"', more);
    assert r[2..2 + |value|] == value;
    assert r[3 + |value|..] == more;
  }

  /** One written attribute is read back, followed by whatever the rest reads to. */
  lemma ReadOneAttribute(a: Attribute, more: string)
    requires PlainName(a.name) && '"' !in a.value
    ensures ReadAttributes(" " + a.name + "=\"" + a.value + "\"" + more)
         == ([a] + ReadAttributes(more).0, ReadAttributes(more).1)
  {
    var s := " " + a.name + "=\"" + a.value + "\"" + more;
    assert s[1..] == a.name + "=\"" + a.value + "\"" + more;
    ReadPairOf(a, more);
  }

  /** Reading back written attributes gives them back, and stops where they end. */
  lemma {:induction false} ReadAttributesRoundTrip(attrs: seq<Attribute>, rest: string)
    requires ReadableAttributes(attrs) && (rest == [] || rest[0] != ' ')
    ensures ReadAttributes(AttributesText(attrs) + rest) == (attrs, rest)
    decreases |attrs|
  {
    if attrs == [] {
      assert AttributesText(attrs) + rest == rest;
    } else {
      var a := attrs[0];
      var tail := AttributesText(attrs[1..]);
      assert ReadableAttributes(attrs[1..]) by {
        forall i | 0 <= i < |attrs[1..]|
          ensures PlainName(attrs[1..][i].name) && '"' !in attrs[1..][i].value
        {
          assert attrs[1..][i] == attrs[i + 1];
        }
      }
      assert PlainName(a.name) && '"' !in a.value;
      assert AttributesText(attrs) + rest == " " + a.name + "=\"" + a.value + "\"" + (tail + rest);
      ReadOneAttribute(a, tail + rest);
      ReadAttributesRoundTrip(attrs[1..], rest);
      assert [a] + attrs[1..] == attrs;
    }
  }

  /** Reading a start tag gives its name and attributes back. */
  lemma ReadStartTag(name: string, attrs: seq<Attribute>, rest: string)
    requires PlainName(name) && ReadableAttributes(attrs)
    ensures ReadTag(StartTag(name, attrs) + rest) == Some((Start(name, attrs), rest))
  {
    var s := StartTag(name, attrs) + rest;
    var body := s[1..];
    assert body == name + (AttributesText(attrs) + ">" + rest);
    if attrs != [] {
      AttributesTextEnds(attrs);
    }
    NameLengthOf(name, AttributesText(attrs) + ">" + rest);
    assert body[..|name|] == name;
    assert body[|name|..] == AttributesText(attrs) + (">" + rest);
    ReadAttributesRoundTrip(attrs, ">" + rest);
    assert s[0] == '<' && s[1] == name[0] && name[0] != '/';
  }

  /** Reading an empty-element tag gives its name and attributes back. */
  lemma ReadEmptyTag(name: string, attrs: seq<Attribute>, rest: string)
    requires PlainName(name) && ReadableAttributes(attrs)
    ensures ReadTag(EmptyTag(name, attrs) + rest) == Some((Empty(name, attrs), rest))
  {
    var s := EmptyTag(name, attrs) + rest;
    var body := s[1..];
    assert body == name + (AttributesText(attrs) + "/>" + rest);
    if attrs != [] {
      AttributesTextEnds(attrs);
    }
    NameLengthOf(name, AttributesText(attrs) + "/>" + rest);
    assert body[..|name|] == name;
    assert body[|name|..] == AttributesText(attrs) + ("/>" + rest);
    ReadAttributesRoundTrip(attrs, "/>" + rest);
    assert s[0] == '<' && s[1] == name[0] && name[0] != '/';
  }

  /** Reading an end tag gives its name back. */
  lemma ReadEndTag(name: string, rest: string)
    requires PlainName(name)
    ensures ReadTag(EndTag(name) + rest) == Some((End(name), rest))
  {
    var s := EndTag(name) + rest;
    PlainNameMarkupFree(name);
    assert s[0] == '<' && s[1] == '/';
    assert s[2..] == name + ['>'] + rest;
    UntilOf(name, '>', rest);
    assert s[2..2 + |name|] == name && s[3 + |name|..] == rest;
  }
}
