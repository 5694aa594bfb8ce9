/**
 * The value conversion of `XmlOutput::add_metatag`: a document string
 * (raw bytes) is inspected for a byte-order mark, split into code units
 * (bytes, or 16-bit units for UTF-16 as in section 3.2 of RFC 2781), and
 * each unit is written on its own: `<`, `>` and `&` as the entities of
 * section 2.4 of XML 1.0, other UTF-16 units through a UTF-8 encoder
 * (section 3 of RFC 3629, one code unit at a time, without joining
 * surrogate pairs), other bytes unchanged.
 *
 * Strings stand for C byte strings; a char is read as a byte through
 * `(unsigned char)`, i.e. modulo 256.
 */
module TextEncoding {

  predicate IsByteString(s: string) {
    forall i :: 0 <= i < |s| ==> s[i] as int < 0x100
  }

  /** `(unsigned char) c`. */
  function Byte(c: char): (b: int)
    ensures 0 <= b < 0x100
    ensures c as int < 0x100 ==> b == c as int
  {
    c as int % 0x100
  }

  /** A UTF-16 code unit, or a byte widened to one. */
  type Unit16 = u: int | 0 <= u < 0x1_0000

  // ------------------------------------------------------------- UTF-8

  /** The UTF-8 encoding of one 16-bit code unit: 1, 2 or 3 bytes. */
  function Utf8(u: Unit16): (e: string)
    ensures |e| == (if u < 0x80 then 1 else if u < 0x800 then 2 else 3)
  {
    if u < 0x80 then [u as char]
    else if u < 0x800 then [(0xC0 + u / 0x40) as char, (0x80 + u % 0x40) as char]
    else [(0xE0 + u / 0x1000) as char, (0x80 + (u / 0x40) % 0x40) as char, (0x80 + u % 0x40) as char]
  }

  predicate IsContinuation(c: char) { 0x80 <= c as int < 0xC0 }

  /**
   * The 1-, 2- and 3-byte lead/continuation shapes without overlong forms:
   * one byte 0xxxxxxx; a two-byte lead 110xxxxx that is not an overlong
   * 0xC0/0xC1; a three-byte lead 1110xxxx, where lead 0xE0 needs a second
   * byte of at least 0xA0; continuation bytes 10xxxxxx. Surrogate units are
   * not excluded; see `SurrogateUnitEncoding`.
   */
  lemma Utf8WellFormed(u: Unit16)
    ensures var e := Utf8(u);
      && (|e| == 1 ==> e[0] as int < 0x80)
      && (|e| == 2 ==> 0xC2 <= e[0] as int < 0xE0 && IsContinuation(e[1]))
      && (|e| == 3 ==> 0xE0 <= e[0] as int < 0xF0 && IsContinuation(e[1]) && IsContinuation(e[2])
                       && (e[0] as int == 0xE0 ==> e[1] as int >= 0xA0))
    ensures IsByteString(Utf8(u))
  {
  }

  /**
   * A lone UTF-16 surrogate unit 0xD800..0xDFFF is encoded on its own as
   * 0xED followed by a second byte in 0xA0..0xBF, a sequence section 3 of
   * RFC 3629 forbids; a surrogate pair becomes two such 3-byte sequences
   * rather than one 4-byte sequence.
   */
  lemma SurrogateUnitEncoding(u: Unit16)
    requires 0xD800 <= u as int < 0xE000
    ensures var e := Utf8(u);
      |e| == 3 && e[0] as int == 0xED && 0xA0 <= e[1] as int < 0xC0 && IsContinuation(e[2])
  {
  }

  /** Decodes the UTF-8 sequence that starts `s`: the unit and the number of bytes used. */
  function Utf8Front(s: string): (r: (int, nat))
    requires |s| > 0
    ensures 1 <= r.1 <= |s|
  {
    var b0 := s[0] as int;
    if b0 < 0x80 || |s| < 2 then (b0, 1)
    else if b0 < 0xE0 then ((b0 - 0xC0) * 0x40 + (s[1] as int - 0x80), 2)
    else if |s| < 3 then (b0, 1)
    else ((b0 - 0xE0) * 0x1000 + (s[1] as int - 0x80) * 0x40 + (s[2] as int - 0x80), 3)
  }

  /** Decoding the front of an encoded unit gives the unit back and consumes exactly its bytes. */
  lemma Utf8RoundTrip(u: Unit16, rest: string)
    ensures Utf8Front(Utf8(u) + rest) == (u, |Utf8(u)|)
  {
    var e := Utf8(u);
    assert (e + rest)[..|e|] == e;
  }

  // ------------------------------------------------------- byte-order mark

  datatype Encoding = Raw | Utf8Bom | Utf16LE | Utf16BE

  /**
   * The encoding announced by the first bytes: EF BB BF (UTF-8),
   * FF FE (UTF-16 little-endian), FE FF (UTF-16 big-endian), else raw bytes.
   */
  function DetectEncoding(v: string): Encoding
  {
    if |v| >= 3 && v[0] as int == 0xEF && v[1] as int == 0xBB && v[2] as int == 0xBF then Utf8Bom
    else if |v| >= 2 && v[0] as int == 0xFF && v[1] as int == 0xFE then Utf16LE
    else if |v| >= 2 && v[0] as int == 0xFE && v[1] as int == 0xFF then Utf16BE
    else Raw
  }

  predicate IsUnicode(enc: Encoding) { enc == Utf16LE || enc == Utf16BE }

  /** Index of the first byte after the byte-order mark. */
  function StartIndex(enc: Encoding): nat
  {
    match enc
    case Raw => 0
    case Utf8Bom => 3
    case Utf16LE => 2
    case Utf16BE => 2
  }

  /** The bytes that are converted end here: an odd trailing byte of UTF-16 is dropped. */
  function EndIndex(v: string, enc: Encoding): nat
  {
    if IsUnicode(enc) then (|v| / 2) * 2 else |v|
  }

  /** Bytes taken by k units. */
  function Span(unicode: bool, k: nat): nat { if unicode then 2 * k else k }

  /** The number of code units after the mark. */
  function UnitCount(v: string): nat
  {
    var enc := DetectEncoding(v);
    if IsUnicode(enc) then |v| / 2 - 1 else |v| - StartIndex(enc)
  }

  /** The units end exactly where the converted bytes end, inside the value. */
  lemma UnitSpan(v: string)
    ensures var enc := DetectEncoding(v);
      StartIndex(enc) + Span(IsUnicode(enc), UnitCount(v)) == EndIndex(v, enc) <= |v|
  {
  }

  /** The unit read at byte i: one byte, or two bytes in the given byte order. */
  function ByteUnit(v: string, i: nat, unicode: bool, littleEndian: bool): Unit16
    requires i + (if unicode then 1 else 0) < |v|
  {
    if !unicode then Byte(v[i])
    else if littleEndian then Byte(v[i]) + Byte(v[i + 1]) * 0x100
    else Byte(v[i]) * 0x100 + Byte(v[i + 1])
  }

  /** The first k units read from byte `start` on, one or two bytes each. */
  function Units(v: string, start: nat, k: nat, unicode: bool, littleEndian: bool): (us: seq<Unit16>)
    requires start + Span(unicode, k) <= |v|
    ensures |us| == k
  {
    if k == 0 then []
    else Units(v, start, k - 1, unicode, littleEndian) + [ByteUnit(v, start + Span(unicode, k - 1), unicode, littleEndian)]
  }

  /** The code units of a metadata value, in order. */
  function CodeUnits(v: string): (us: seq<Unit16>)
    ensures |us| == UnitCount(v)
  {
    var enc := DetectEncoding(v);
    UnitSpan(v);
    Units(v, StartIndex(enc), UnitCount(v), IsUnicode(enc), enc == Utf16LE)
  }

  // ------------------------------------------------------------ escaping

  /** What one code unit becomes in the output; a byte is written back with `(char) u`. */
  function EncodeUnit(u: Unit16, unicode: bool): (e: string)
    ensures 1 <= |e| <= 5
  {
    if u == '<' as int then "&lt;"
    else if u == '>' as int then "&gt;"
    else if u == '&' as int then "&amp;"
    else if unicode then Utf8(u)
    else [(u % 0x100) as char]
  }

  /** The units encoded one after the other. */
  function EncodeUnits(us: seq<Unit16>, unicode: bool): string
  {
    if us == [] then "" else EncodeUnits(us[..|us| - 1], unicode) + EncodeUnit(us[|us| - 1], unicode)
  }

  /** The text `add_metatag` writes between the tags for the value `v`. */
  function MetaText(v: string): string
  {
    EncodeUnits(CodeUnits(v), IsUnicode(DetectEncoding(v)))
  }

  // ------------------------------------------------------------ the buffer loop

  /**
   * `mapUTF8`: writes the encoding of `u` at `at` when `room` bytes suffice
   * and returns how many it wrote; with too little room it writes nothing
   * and returns 0.
   */
  method MapUtf8(u: Unit16, buf: array<char>, at: nat, room: int) returns (len: nat)
    requires at + (if room < 0 then 0 else room) <= buf.Length
    modifies buf
    ensures len == (if |Utf8(u)| <= room then |Utf8(u)| else 0)
    ensures buf[..at] == old(buf[..at]) && buf[at..at + len] == Utf8(u)[..len]
  {
    var e := Utf8(u);
    if |e| > room {
      return 0;
    }
    len := |e|;
    var t := 0;
    while t < len
      invariant 0 <= t <= len
      invariant buf[..at] == old(buf[..at]) && buf[at..at + t] == e[..t]
    {
      buf[at + t] := e[t];
      t := t + 1;
    }
  }

  /**
   * One step of the conversion loop: the entity for `<`, `>` or `&`, the
   * UTF-8 bytes of a UTF-16 unit, or the byte itself, written at `at`.
   */
  method WriteUnit(u: Unit16, unicode: bool, buf: array<char>, at: nat) returns (len: nat)
    requires at + 5 <= buf.Length
    modifies buf
    ensures len == |EncodeUnit(u, unicode)|
    ensures buf[..at + len] == old(buf[..at]) + EncodeUnit(u, unicode)
  {
    ghost var before := buf[..at];
    if u == '<' as int {
      buf[at], buf[at + 1], buf[at + 2], buf[at + 3] := '&', 'l', 't', ';';
      assert buf[..at + 4] == before + "&lt;";
      len := 4;
    } else if u == '>' as int {
      buf[at], buf[at + 1], buf[at + 2], buf[at + 3] := '&', 'g', 't', ';';
      assert buf[..at + 4] == before + "&gt;";
      len := 4;
    } else if u == '&' as int {
      buf[at], buf[at + 1], buf[at + 2], buf[at + 3], buf[at + 4] := '&', 'a', 'm', 'p', ';';
      assert buf[..at + 5] == before + "&amp;";
      len := 5;
    } else if unicode {
      len := MapUtf8(u, buf, at, buf.Length - at);
      assert buf[..at + len] == buf[..at] + buf[at..at + len];
    } else {
      buf[at] := (u % 0x100) as char;
      assert buf[..at + 1] == before + [(u % 0x100) as char];
      len := 1;
    }
  }

  /** The byte-order-mark test at the start of the conversion. */
  method DetectMark(value: string) returns (isUnicode: bool, littleEndian: bool, startIndex: nat, endIndex: nat)
    ensures isUnicode == IsUnicode(DetectEncoding(value))
    ensures littleEndian <==> DetectEncoding(value) == Utf16LE
    ensures startIndex == StartIndex(DetectEncoding(value))
    ensures endIndex == EndIndex(value, DetectEncoding(value))
  {
    isUnicode, littleEndian := false, false;
    startIndex, endIndex := 0, |value|;

    if |value| >= 3 {
      if value[0] as int == 0xEF && value[1] as int == 0xBB && value[2] as int == 0xBF {
        // UTF-8 value, skip the mark
        startIndex := 3;
      }
    }

    if startIndex == 0 && |value| >= 2 {
      if value[0] as int == 0xFF && value[1] as int == 0xFE {
        isUnicode := true;
        littleEndian := true;
        startIndex := 2;
        endIndex := (endIndex / 2) * 2;
      } else if value[0] as int == 0xFE && value[1] as int == 0xFF {
        isUnicode := true;
        startIndex := 2;
        endIndex := (endIndex / 2) * 2;
      }
    }
  }

  /** Reading one more unit appends it to the units read so far. */
  lemma UnitsNext(v: string, start: nat, n: nat, unicode: bool, littleEndian: bool)
    requires start + Span(unicode, n + 1) <= |v|
    ensures Units(v, start, n + 1, unicode, littleEndian)
         == Units(v, start, n, unicode, littleEndian) + [ByteUnit(v, start + Span(unicode, n), unicode, littleEndian)]
  {
  }

  /** The text of one more unit is appended to the text so far. */
  lemma EncodeNext(v: string, start: nat, n: nat, unicode: bool, littleEndian: bool)
    requires start + Span(unicode, n + 1) <= |v|
    ensures EncodeUnits(Units(v, start, n + 1, unicode, littleEndian), unicode)
         == EncodeUnits(Units(v, start, n, unicode, littleEndian), unicode)
            + EncodeUnit(ByteUnit(v, start + Span(unicode, n), unicode, littleEndian), unicode)
  {
    var b := ByteUnit(v, start + Span(unicode, n), unicode, littleEndian);
    UnitsNext(v, start, n, unicode, littleEndian);
    EncodeSnoc(Units(v, start, n, unicode, littleEndian), b, unicode);
  }

  /** Encoding one more unit appends that unit's text. */
  lemma EncodeSnoc(us: seq<Unit16>, u: Unit16, unicode: bool)
    ensures EncodeUnits(us + [u], unicode) == EncodeUnits(us, unicode) + EncodeUnit(u, unicode)
  {
    assert (us + [u])[..|us|] == us;
  }

  /**
   * The state of the conversion loop after n of the `count` units: the
   * buffer of `6 * length + 1` characters holds the text of those n units,
   * at most five characters each.
   */
  ghost predicate Converted(value: string, startIndex: nat, n: nat, count: nat, isUnicode: bool, littleEndian: bool,
                            buf: array<char>, at: nat)
    reads buf
  {
    && n <= count && startIndex + Span(isUnicode, count) <= |value|
    && buf.Length == |value| * 6 + 1 && at <= 5 * n && at <= buf.Length
    && buf[..at] == Prefix(value, startIndex, n, isUnicode, littleEndian)
  }

  /** The text of the first n units, built one unit at a time as the loop does. */
  ghost function Prefix(v: string, start: nat, n: nat, unicode: bool, littleEndian: bool): string
    requires start + Span(unicode, n) <= |v|
  {
    if n == 0 then ""
    else Prefix(v, start, n - 1, unicode, littleEndian) + EncodeUnit(ByteUnit(v, start + Span(unicode, n - 1), unicode, littleEndian), unicode)
  }

  /** The loop's text is the encoding of the units. */
  lemma {:induction false} PrefixEncodes(v: string, start: nat, n: nat, unicode: bool, littleEndian: bool)
    requires start + Span(unicode, n) <= |v|
    ensures Prefix(v, start, n, unicode, littleEndian) == EncodeUnits(Units(v, start, n, unicode, littleEndian), unicode)
  {
    if n > 0 {
      PrefixEncodes(v, start, n - 1, unicode, littleEndian);
      PrefixLast(v, start, n, unicode, littleEndian);
      EncodeLast(v, start, n, unicode, littleEndian);
    }
  }

  lemma PrefixLast(v: string, start: nat, n: nat, unicode: bool, littleEndian: bool)
    requires 0 < n && start + Span(unicode, n) <= |v|
    ensures Prefix(v, start, n, unicode, littleEndian)
         == Prefix(v, start, n - 1, unicode, littleEndian)
            + EncodeUnit(ByteUnit(v, start + Span(unicode, n - 1), unicode, littleEndian), unicode)
  {
  }

  /** The text of n units is the text of the first n - 1 and that of the last. */
  lemma EncodeLast(v: string, start: nat, n: nat, unicode: bool, littleEndian: bool)
    requires 0 < n && start + Span(unicode, n) <= |v|
    ensures EncodeUnits(Units(v, start, n, unicode, littleEndian), unicode)
         == EncodeUnits(Units(v, start, n - 1, unicode, littleEndian), unicode)
            + EncodeUnit(ByteUnit(v, start + Span(unicode, n - 1), unicode, littleEndian), unicode)
  {
    EncodeNext(v, start, n - 1, unicode, littleEndian);
  }

  /**
   * One turn of the conversion loop: the unit at byte `i`, the n-th of
   * `count`, is written after the text of the n units before it.
   */
  method ConvertStep(value: string, startIndex: nat, i: nat, ghost n: nat, ghost count: nat,
                     isUnicode: bool, littleEndian: bool, buf: array<char>, at: nat) returns (len: nat)
    requires i == startIndex + Span(isUnicode, n) && Span(isUnicode, n) < Span(isUnicode, count)
    requires Converted(value, startIndex, n, count, isUnicode, littleEndian, buf, at)
    modifies buf
    ensures Converted(value, startIndex, n + 1, count, isUnicode, littleEndian, buf, at + len)
  {
    SpanStep(isUnicode, n, count);
    var u := ByteUnit(value, i, isUnicode, littleEndian);
    ghost var before := buf[..at];
    len := WriteUnit(u, isUnicode, buf, at);
    ConvertedNext(value, startIndex, n, count, isUnicode, littleEndian, buf, at, len, before);
  }

  /** The text of unit n follows the text of the units before it. */
  lemma ConvertedNext(value: string, startIndex: nat, n: nat, count: nat, isUnicode: bool, littleEndian: bool,
                      buf: array<char>, at: nat, len: nat, before: string)
    requires n + 1 <= count && startIndex + Span(isUnicode, count) <= |value| && Span(isUnicode, n + 1) <= Span(isUnicode, count)
    requires buf.Length == |value| * 6 + 1 && at <= 5 * n && len <= 5 && count <= Span(isUnicode, count)
    requires before == Prefix(value, startIndex, n, isUnicode, littleEndian)
    requires at + len <= buf.Length
    requires buf[..at + len] == before + EncodeUnit(ByteUnit(value, startIndex + Span(isUnicode, n), isUnicode, littleEndian), isUnicode)
    ensures Converted(value, startIndex, n + 1, count, isUnicode, littleEndian, buf, at + len)
  {
  }

  /**
   * The conversion loop of `add_metatag`: detect the mark, then walk the
   * bytes (two at a time for UTF-16) writing each unit into a buffer of
   * `6 * length + 1` characters. The result is MetaText(value), and the
   * buffer is never overrun.
   */
  method ConvertMetaValue(value: string) returns (text: string)
    ensures text == MetaText(value)
  {
    var isUnicode, littleEndian, startIndex, endIndex := DetectMark(value);
    UnitSpan(value);
    text := ConvertUnits(value, startIndex, endIndex, UnitCount(value), isUnicode, littleEndian);
  }

  /** Before the last unit there is room for one more, in bytes read. */
  lemma SpanStep(unicode: bool, n: nat, count: nat)
    requires Span(unicode, n) < Span(unicode, count)
    ensures n + 1 <= count && Span(unicode, n + 1) <= Span(unicode, count) && count <= Span(unicode, count)
  {
  }

  /** Before the loop: nothing written, nothing read. */
  lemma ConvertedStart(value: string, startIndex: nat, count: nat, isUnicode: bool, littleEndian: bool, buf: array<char>)
    requires startIndex + Span(isUnicode, count) <= |value| && buf.Length == |value| * 6 + 1
    ensures Converted(value, startIndex, 0, count, isUnicode, littleEndian, buf, 0)
  {
  }

  /** After the loop: all units read, and the buffer holds their text. */
  lemma ConvertedEnd(value: string, startIndex: nat, n: nat, count: nat, isUnicode: bool, littleEndian: bool,
                     buf: array<char>, at: nat)
    requires Converted(value, startIndex, n, count, isUnicode, littleEndian, buf, at)
    requires Span(isUnicode, n) >= Span(isUnicode, count)
    ensures at <= buf.Length && buf[..at] == EncodeUnits(Units(value, startIndex, count, isUnicode, littleEndian), isUnicode)
  {
    SpanDone(isUnicode, n, count);
    ConvertedAll(value, startIndex, count, isUnicode, littleEndian, buf, at);
  }

  /** With every unit read, the loop's text is the encoding of all the units. */
  lemma ConvertedAll(value: string, startIndex: nat, count: nat, isUnicode: bool, littleEndian: bool,
                     buf: array<char>, at: nat)
    requires Converted(value, startIndex, count, count, isUnicode, littleEndian, buf, at)
    ensures at <= buf.Length && buf[..at] == EncodeUnits(Units(value, startIndex, count, isUnicode, littleEndian), isUnicode)
  {
    PrefixEncodes(value, startIndex, count, isUnicode, littleEndian);
  }

  /** The loop stops after the last unit. */
  lemma SpanDone(unicode: bool, n: nat, count: nat)
    requires n <= count && Span(unicode, n) >= Span(unicode, count)
    ensures n == count
  {
  }

  /** The loop itself, over the `count` units between `startIndex` and `endIndex`. */
  method ConvertUnits(value: string, startIndex: nat, endIndex: nat, ghost count: nat, isUnicode: bool, littleEndian: bool)
    returns (text: string)
    requires endIndex == startIndex + Span(isUnicode, count) <= |value|
    ensures text == EncodeUnits(Units(value, startIndex, count, isUnicode, littleEndian), isUnicode)
  {
    var utf8Length := |value| * 6 + 1;
    var utf8Value := new char[utf8Length];
    var utf8Index: nat := 0;
    var i := startIndex;
    ghost var n := 0;
    ConvertedStart(value, startIndex, count, isUnicode, littleEndian, utf8Value);
    while i < endIndex
      invariant i == startIndex + Span(isUnicode, n)
      invariant Converted(value, startIndex, n, count, isUnicode, littleEndian, utf8Value, utf8Index)
      decreases endIndex - i
    {
      var len := ConvertStep(value, startIndex, i, n, count, isUnicode, littleEndian, utf8Value, utf8Index);
      utf8Index := utf8Index + len;
      i := i + (if isUnicode then 2 else 1);
      n := n + 1;
    }
    ConvertedEnd(value, startIndex, n, count, isUnicode, littleEndian, utf8Value, utf8Index);
    text := utf8Value[..utf8Index];
  }

  // ------------------------------------------------------------ properties

  /** Appending units appends their encodings. */
  lemma {:induction false} EncodeUnitsAppend(a: seq<Unit16>, b: seq<Unit16>, unicode: bool)
    ensures EncodeUnits(a + b, unicode) == EncodeUnits(a, unicode) + EncodeUnits(b, unicode)
    decreases |b|
  {
    if b != [] {
      var b', u := b[..|b| - 1], b[|b| - 1];
      assert b == b' + [u];
      assert a + b == (a + b') + [u];
      EncodeSnoc(a + b', u, unicode);
      EncodeSnoc(b', u, unicode);
      EncodeUnitsAppend(a, b', unicode);
      Assoc(EncodeUnits(a, unicode), EncodeUnits(b', unicode), EncodeUnit(u, unicode));
    } else {
      assert a + b == a;
    }
  }

  /** Concatenation is associative; stated once to keep the appending proofs short. */
  lemma Assoc(x: string, y: string, z: string)
    ensures x + y + z == x + (y + z)
  {
  }

  /** No unit takes more than five output bytes. */
  lemma {:induction false} EncodeUnitsLength(us: seq<Unit16>, unicode: bool)
    ensures |EncodeUnits(us, unicode)| <= 5 * |us|
  {
    if us != [] {
      EncodeUnitsLength(us[..|us| - 1], unicode);
    }
  }

  /** The text fits the `6 * length + 1` buffer with room for the terminator. */
  lemma MetaTextLength(v: string)
    ensures |MetaText(v)| <= 6 * |v|
  {
    EncodeUnitsLength(CodeUnits(v), IsUnicode(DetectEncoding(v)));
  }

  /** The text of one unit holds no `<` or `>` and is made of bytes. */
  lemma EncodeUnitClean(u: Unit16, unicode: bool)
    requires !unicode ==> u < 0x100
    ensures forall i :: 0 <= i < |EncodeUnit(u, unicode)| ==>
      EncodeUnit(u, unicode)[i] != '<' && EncodeUnit(u, unicode)[i] != '>'
    ensures IsByteString(EncodeUnit(u, unicode))
  {
    if unicode && u != '<' as int && u != '>' as int && u != '&' as int {
      Utf8WellFormed(u);
    }
  }

  /** Neither `<` nor `>` ever appears in the written text, and it is made of bytes. */
  lemma {:induction false} EncodeUnitsClean(us: seq<Unit16>, unicode: bool)
    requires !unicode ==> BytesOnly(us)
    ensures forall i :: 0 <= i < |EncodeUnits(us, unicode)| ==>
      EncodeUnits(us, unicode)[i] != '<' && EncodeUnits(us, unicode)[i] != '>'
    ensures IsByteString(EncodeUnits(us, unicode))
  {
    if us != [] {
      var front := us[..|us| - 1];
      var u := us[|us| - 1];
      EncodeUnitsClean(front, unicode);
      EncodeUnitClean(u, unicode);
      var a, b := EncodeUnits(front, unicode), EncodeUnit(u, unicode);
      assert EncodeUnits(us, unicode) == a + b;
      forall i | 0 <= i < |a + b|
        ensures (a + b)[i] != '<' && (a + b)[i] != '>' && (a + b)[i] as int < 0x100
      {
        if i >= |a| {
          assert (a + b)[i] == b[i - |a|];
        }
      }
    }
  }

  lemma MetaTextClean(v: string)
    ensures '<' !in MetaText(v) && '>' !in MetaText(v)
    ensures IsByteString(MetaText(v))
  {
    var enc := DetectEncoding(v);
    UnitSpan(v);
    if !IsUnicode(enc) {
      RawUnitsAreBytes(v, StartIndex(enc), UnitCount(v));
    }
    EncodeUnitsClean(CodeUnits(v), IsUnicode(DetectEncoding(v)));
  }

  /**
   * Reads written text back into code units: the three entities, then one
   * byte (raw mode) or one UTF-8 sequence (UTF-16 mode) per unit.
   */
  function ReadUnits(s: string, unicode: bool): seq<int>
    decreases |s|
  {
    if s == [] then []
    else if |s| >= 4 && s[..4] == "&lt;" then ['<' as int] + ReadUnits(s[4..], unicode)
    else if |s| >= 4 && s[..4] == "&gt;" then ['>' as int] + ReadUnits(s[4..], unicode)
    else if |s| >= 5 && s[..5] == "&amp;" then ['&' as int] + ReadUnits(s[5..], unicode)
    else if unicode then
      var (u, len) := Utf8Front(s);
      [u] + ReadUnits(s[len..], unicode)
    else [s[0] as int] + ReadUnits(s[1..], unicode)
  }

  lemma ReadOneUnit(u: Unit16, rest: string, unicode: bool)
    requires !unicode ==> u < 0x100
    ensures ReadUnits(EncodeUnit(u, unicode) + rest, unicode) == [u] + ReadUnits(rest, unicode)
  {
    if u == '<' as int || u == '>' as int || u == '&' as int {
      ReadEntity(u, rest, unicode);
    } else {
      ReadPlain(u, rest, unicode);
    }
  }

  lemma ReadEntity(u: Unit16, rest: string, unicode: bool)
    requires u == '<' as int || u == '>' as int || u == '&' as int
    ensures ReadUnits(EncodeUnit(u, unicode) + rest, unicode) == [u] + ReadUnits(rest, unicode)
  {
    var e := EncodeUnit(u, unicode);
    var s := e + rest;
    assert s[..|e|] == e && s[|e|..] == rest;
    if u == '<' as int {
      assert s[..4] == "&lt;";
    } else if u == '>' as int {
      assert s[..4] == "&gt;" && s[..4] != "&lt;";
    } else {
      assert s[..5] == "&amp;" && s[..4] == "&amp";
    }
  }

  lemma ReadPlain(u: Unit16, rest: string, unicode: bool)
    requires !unicode ==> u < 0x100
    requires u != '<' as int && u != '>' as int && u != '&' as int
    ensures ReadUnits(EncodeUnit(u, unicode) + rest, unicode) == [u] + ReadUnits(rest, unicode)
  {
    var e := EncodeUnit(u, unicode);
    var s := e + rest;
    assert s[..|e|] == e && s[|e|..] == rest;
    if unicode {
      Utf8RoundTrip(u, rest);
      Utf8WellFormed(u);
    }
    assert s[0] == e[0] && s[0] != '&';
  }

  predicate BytesOnly(us: seq<Unit16>) {
    forall i :: 0 <= i < |us| ==> us[i] < 0x100
  }

  lemma {:induction false} ReadEncodedUnits(us: seq<Unit16>, unicode: bool)
    requires !unicode ==> BytesOnly(us)
    ensures ReadUnits(EncodeUnits(us, unicode), unicode) == us
    decreases |us|
  {
    if us != [] {
      var tail := us[1..];
      assert us == [us[0]] + tail;
      EncodeUnitsAppend([us[0]], tail, unicode);
      assert EncodeUnits([us[0]], unicode) == EncodeUnit(us[0], unicode) by {
        assert [us[0]][..0] == [];
      }
      ReadOneUnit(us[0], EncodeUnits(tail, unicode), unicode);
      ReadEncodedUnits(tail, unicode);
    }
  }

  lemma {:induction false} RawUnitsAreBytes(v: string, start: nat, k: nat)
    requires start + k <= |v|
    ensures BytesOnly(Units(v, start, k, false, false))
  {
    if k > 0 {
      RawUnitsAreBytes(v, start, k - 1);
    }
  }

  /**
   * Nothing is lost: reading the written text back yields exactly the code
   * units after the byte-order mark, each encoded on its own.
   */
  lemma MetaTextRoundTrip(v: string)
    ensures ReadUnits(MetaText(v), IsUnicode(DetectEncoding(v))) == CodeUnits(v)
  {
    var enc := DetectEncoding(v);
    UnitSpan(v);
    if !IsUnicode(enc) {
      RawUnitsAreBytes(v, StartIndex(enc), UnitCount(v));
    }
    ReadEncodedUnits(CodeUnits(v), IsUnicode(enc));
  }

  /**
   * After a UTF-8 mark, or without a mark, the bytes are copied one for one
   * (the mark itself dropped) when they hold no `<`, `>` or `&`.
   */
  lemma RawCopiedVerbatim(v: string)
    requires IsByteString(v) && !IsUnicode(DetectEncoding(v))
    requires forall i :: StartIndex(DetectEncoding(v)) <= i < |v| ==> v[i] != '<' && v[i] != '>' && v[i] != '&'
    ensures MetaText(v) == v[StartIndex(DetectEncoding(v))..]
  {
    var start := StartIndex(DetectEncoding(v));
    RawUnits(v, start, |v| - start);
    assert v[start..start + (|v| - start)] == v[start..];
  }

  /** A byte that is not markup is written as itself. */
  lemma RawUnit(v: string, j: nat)
    requires j < |v| && v[j] as int < 0x100 && v[j] != '<' && v[j] != '>' && v[j] != '&'
    ensures EncodeUnit(ByteUnit(v, j, false, false), false) == [v[j]]
  {
  }

  lemma SliceSnoc(v: string, start: nat, j: nat)
    requires start <= j < |v|
    ensures v[start..j + 1] == v[start..j] + [v[j]]
  {
  }

  lemma {:induction false} RawUnits(v: string, start: nat, k: nat)
    requires IsByteString(v) && start + k <= |v|
    requires forall i :: start <= i < start + k ==> v[i] != '<' && v[i] != '>' && v[i] != '&'
    ensures EncodeUnits(Units(v, start, k, false, false), false) == v[start..start + k]
  {
    if k > 0 {
      var j := start + k - 1;
      EncodeNext(v, start, k - 1, false, false);
      RawUnits(v, start, k - 1);
      RawUnit(v, j);
      SliceSnoc(v, start, j);
    }
  }

  /** For UTF-16, an odd trailing byte is ignored. */
  lemma OddTrailingByteIgnored(v: string)
    requires |v| >= 3 && IsUnicode(DetectEncoding(v)) && |v| % 2 == 1
    ensures DetectEncoding(v[..|v| - 1]) == DetectEncoding(v)
    ensures MetaText(v) == MetaText(v[..|v| - 1])
  {
    var w := v[..|v| - 1];
    var enc := DetectEncoding(v);
    assert DetectEncoding(w) == enc;
    UnitsOfPrefix(v, w, 2, UnitCount(v), enc == Utf16LE);
  }

  /** Units read within a prefix of the value are the same in the prefix. */
  lemma {:induction false} UnitsOfPrefix(v: string, w: string, start: nat, k: nat, littleEndian: bool)
    requires |w| <= |v| && w == v[..|w|]
    requires start + Span(true, k) <= |w|
    ensures Units(v, start, k, true, littleEndian) == Units(w, start, k, true, littleEndian)
  {
    if k > 0 {
      UnitsOfPrefix(v, w, start, k - 1, littleEndian);
    }
  }
}
