/** Number and string tokens: printing them and decoding them back. */
module JsonText {
  import opened Basics
  import opened JsonValue
  import opened JsonLexer

  // ---------------------------------------------------------------- integers

  function Digit(d: nat): (c: char)
    requires d < 10
    ensures IsDigit(c)
  {
    ('0' as int + d) as char
  }

  function DigitValue(c: char): (d: nat)
    requires IsDigit(c)
    ensures d < 10
  {
    c as int - '0' as int
  }

  predicate AllDigits(s: string) { forall i :: 0 <= i < |s| ==> IsDigit(s[i]) }

  function Decimal(n: nat): (s: string)
    ensures s != [] && AllDigits(s)
  {
    if n < 10 then [Digit(n)] else Decimal(n / 10) + [Digit(n % 10)]
  }

  function DigitsValue(s: string): nat
    requires AllDigits(s)
  {
    if s == [] then 0 else DigitsValue(s[..|s| - 1]) * 10 + DigitValue(s[|s| - 1])
  }

  function IntegerText(i: int): string {
    if i < 0 then "-" + Decimal(-i) else Decimal(i)
  }

  lemma {:induction false} DecimalValue(n: nat)
    ensures DigitsValue(Decimal(n)) == n
  {
    if n >= 10 {
      DecimalValue(n / 10);
      var s := Decimal(n);
      assert s[..|s| - 1] == Decimal(n / 10);
    }
  }

  /** The widest integer type needs 20 digits. */
  lemma {:induction false} DecimalLength(n: nat, width: nat)
    requires n < Power10(width) && width > 0
    ensures |Decimal(n)| <= width
  {
    if n >= 10 {
      DecimalLength(n / 10, width - 1);
    }
  }

  function Power10(e: nat): nat { if e == 0 then 1 else 10 * Power10(e - 1) }

  /** The digits of a number token, without its sign. */
  function Magnitude(text: string): string {
    if text != [] && text[0] == '-' then text[1..] else text
  }

  predicate IsNegative(text: string) { text != [] && text[0] == '-' }

  /** The largest magnitude the integer types can hold with this sign. */
  function MaxMagnitude(negative: bool): nat {
    if negative then MAX_LARGEST_INT + 1 else MAX_LARGEST_UINT
  }

  predicate FitsInteger(text: string) {
    AllDigits(Magnitude(text)) && DigitsValue(Magnitude(text)) <= MaxMagnitude(IsNegative(text))
  }

  /** Small non-negative integers are tagged int, large ones uint, negative ones int. */
  function Tagged(negative: bool, magnitude: nat): Payload {
    if negative then IntValue(0 - magnitude)
    else if magnitude <= MAX_INT then IntValue(magnitude)
    else UIntValue(magnitude)
  }

  /** `toDouble` is the stream extraction of a double from the token's text; None when it fails. */
  function DecodeNumber(toDouble: string -> Option<Double>, text: string): Option<Payload> {
    if FitsInteger(text) then Some(Tagged(IsNegative(text), DigitsValue(Magnitude(text))))
    else
      var r := toDouble(text);
      if r.Some? then Some(RealValue(r.value)) else None
  }

  lemma DigitsAreDecimal(d: nat)
    requires d < 10
    ensures Digit(d) == "0123456789"[d] && DigitValue("0123456789"[d]) == d
  {
  }

  /** The number that an integer payload holds. */
  function NumberOf(p: Payload): int
    requires p.IntValue? || p.UIntValue?
  {
    match p
    case IntValue(i) => i
    case UIntValue(u) => u
  }

  /**
   Digits after an optional minus decode to the number they stand for, if that is at least -2^63 and less than 2^64: as an
   int if it is negative or less than 2^31, else as an unsigned int.
   */
  lemma IntegersDecode(toDouble: string -> Option<Double>, minus: bool, digits: string)
    requires digits != "" && AllDigits(digits)
    requires DigitsValue(digits) <= if minus then 0x8000_0000_0000_0000 else 0xFFFF_FFFF_FFFF_FFFF
    ensures var p := DecodeNumber(toDouble, (if minus then "-" else "") + digits);
            && p.Some? && (p.value.IntValue? || p.value.UIntValue?)
            && NumberOf(p.value) == (if minus then 0 - DigitsValue(digits) else DigitsValue(digits))
            && (p.value.IntValue? <==> minus || DigitsValue(digits) < 0x8000_0000)
  {
    var text := (if minus then "-" else "") + digits;
    assert Magnitude(text) == digits && IsNegative(text) == minus;
  }

  /** Larger numbers, and texts that are not digits after an optional minus, are left to the double path. */
  lemma OthersDecode(toDouble: string -> Option<Double>, minus: bool, rest: string)
    requires !minus ==> rest != "" && rest[0] != '-'
    requires AllDigits(rest) ==> DigitsValue(rest) > if minus then 0x8000_0000_0000_0000 else 0xFFFF_FFFF_FFFF_FFFF
    ensures var text := (if minus then "-" else "") + rest;
            DecodeNumber(toDouble, text) == if toDouble(text).Some? then Some(RealValue(toDouble(text).value)) else None
  {
    var text := (if minus then "-" else "") + rest;
    assert Magnitude(text) == rest && IsNegative(text) == minus;
  }

  // ---------------------------------------------------------------- strings

  /** The errors the reader reports, one constructor for each message text. */
  datatype Message =
    | ValueExpected            // "Syntax error: value, object or array expected."
    | MissingColon             // "Missing ':' after object member name"
    | MissingObjectSeparator   // "Missing ',' or '}' in object declaration"
    | MissingName              // "Missing '}' or object member name"
    | MissingArraySeparator    // "Missing ',' or ']' in array declaration"
    | BadRoot                  // "A valid JSON document must be either an array or an object value."
    | NotANumber(text: string) // "'" + text + "' is not a number."
    | EmptyEscape              // "Empty escape sequence in string"
    | BadEscape                // "Bad escape sequence in string"
    | FourDigitsExpected       // "Bad unicode escape sequence in string: four digits expected."
    | HexDigitExpected         // "Bad unicode escape sequence in string: hexadecimal digit expected."
    | SixCharactersExpected    // "additional six characters expected to parse unicode surrogate pair."
    | SecondHalfExpected       // "expecting another \\u token to begin the second half of a unicode surrogate pair"

  /** A message about the contents of a string token. */
  predicate AboutString(m: Message) {
    m.EmptyEscape? || m.BadEscape? || m.FourDigitsExpected? || m.HexDigitExpected? || m.SixCharactersExpected? || m.SecondHalfExpected?
  }

  datatype Decoded = Decoded(value: string) | Failed(message: Message, at: nat)

  function HexValue(c: char): Option<nat> {
    if '0' <= c <= '9' then Some(c as int - '0' as int)
    else if 'a' <= c <= 'f' then Some(c as int - 'a' as int + 10)
    else if 'A' <= c <= 'F' then Some(c as int - 'A' as int + 10)
    else None
  }

  datatype Unicode = Unicode(code: nat, next: nat) | BadUnicode(message: Message, at: nat)

  /** `left` more hexadecimal digits, after some that amount to `code`. */
  function HexDigits(text: string, pos: nat, left: nat, code: nat): (u: Unicode)
    requires pos + left <= |text|
    ensures u.Unicode? ==> u.next == pos + left
    ensures u.BadUnicode? ==> pos < u.at <= pos + left && AboutString(u.message)
    decreases left
  {
    if left == 0 then Unicode(code, pos)
    else
      var d := HexValue(text[pos]);
      if d.None? then BadUnicode(HexDigitExpected, pos + 1)
      else HexDigits(text, pos + 1, left - 1, code * 16 + d.value)
  }

  /** decodeUnicodeEscapeSequence over text[..end]. */
  function UnicodeEscape(text: string, pos: nat, end: nat): (u: Unicode)
    requires pos <= end <= |text|
    ensures u.Unicode? ==> u.next == pos + 4 <= end
    ensures u.BadUnicode? ==> u.at <= end && AboutString(u.message)
  {
    if end - pos < 4 then BadUnicode(FourDigitsExpected, pos) else HexDigits(text, pos, 4, 0)
  }

  /** decodeUnicodeCodePoint: one escape, or two that form a surrogate pair. */
  function CodePoint(text: string, pos: nat, end: nat): (u: Unicode)
    requires pos <= end <= |text|
    ensures u.Unicode? ==> pos < u.next <= end
    ensures u.BadUnicode? ==> u.at <= end && AboutString(u.message)
  {
    var first := UnicodeEscape(text, pos, end);
    if first.BadUnicode? || !(0xD800 <= first.code <= 0xDBFF) then first
    else if end - first.next < 6 then BadUnicode(SixCharactersExpected, first.next)
    else if text[first.next] != '\\' then BadUnicode(SecondHalfExpected, first.next + 1)
    else if text[first.next + 1] != 'u' then BadUnicode(SecondHalfExpected, first.next + 2)
    else
      var second := UnicodeEscape(text, first.next + 2, end);
      if second.BadUnicode? then second
      else Unicode(0x10000 + (first.code % 0x400) * 0x400 + second.code % 0x400, second.next)
  }

  function Byte(n: nat): char requires n < 256 { n as char }

  /** codePointToUTF8. */
  function Utf8(cp: nat): string {
    if cp <= 0x7F then [Byte(cp)]
    else if cp <= 0x7FF then [Byte(0xC0 + cp / 0x40), Byte(0x80 + cp % 0x40)]
    else if cp <= 0xFFFF then
      [Byte(0xE0 + cp / 0x1000), Byte(0x80 + cp / 0x40 % 0x40), Byte(0x80 + cp % 0x40)]
    else if cp <= 0x10FFFF then
      [Byte(0xF0 + cp / 0x40000), Byte(0x80 + cp / 0x1000 % 0x40), Byte(0x80 + cp / 0x40 % 0x40), Byte(0x80 + cp % 0x40)]
    else []
  }

  function SimpleEscape(c: char): Option<char> {
    match c
    case '"' => Some('"')
    case '/' => Some('/')
    case '\\' => Some('\\')
    case 'b' => Some(8 as char)
    case 'f' => Some(12 as char)
    case 'n' => Some('\n')
    case 'r' => Some('\r')
    case 't' => Some('\t')
    case _ => None
  }

  function Prepend(s: string, d: Decoded): Decoded {
    if d.Decoded? then Decoded(s + d.value) else d
  }

  datatype Unescaped = Unescaped(text: string, next: nat) | BadEscaped(message: Message, at: nat)

  /** What an escape stands for; `pos` is just past its backslash. */
  function Unescape(text: string, pos: nat, end: nat): (u: Unescaped)
    requires pos <= end <= |text|
    ensures u.Unescaped? ==> pos < u.next <= end
    ensures u.BadEscaped? ==> u.at <= end && AboutString(u.message)
  {
    if pos == end then BadEscaped(EmptyEscape, pos)
    else if text[pos] == 'u' then
      var u := CodePoint(text, pos + 1, end);
      if u.BadUnicode? then BadEscaped(u.message, u.at) else Unescaped(Utf8(u.code), u.next)
    else
      var c := SimpleEscape(text[pos]);
      if c.None? then BadEscaped(BadEscape, pos + 1) else Unescaped([c.value], pos + 1)
  }

  /** decodeString over text[pos..end], where text[end] is the closing quote. */
  function DecodeChars(text: string, pos: nat, end: nat): (d: Decoded)
    requires pos <= end <= |text|
    ensures d.Failed? ==> d.at <= end && AboutString(d.message)
    decreases end - pos
  {
    if pos == end || text[pos] == '"' then Decoded("")
    else if text[pos] != '\\' then Prepend([text[pos]], DecodeChars(text, pos + 1, end))
    else
      var u := Unescape(text, pos + 1, end);
      if u.BadEscaped? then Failed(u.message, u.at) else Prepend(u.text, DecodeChars(text, u.next, end))
  }

  /** A string token, quotes included. */
  function DecodeString(text: string): (d: Decoded)
    requires |text| >= 2
    ensures d.Failed? ==> d.at < |text| && AboutString(d.message)
  {
    DecodeChars(text, 1, |text| - 1)
  }

  function HexDigit(n: nat): char requires n < 16 {
    if n < 10 then ('0' as int + n) as char else ('A' as int + n - 10) as char
  }

  predicate IsControl(c: char) { c < 32 as char }

  function Escape(c: char): string {
    if c == '"' then "\\\""
    else if c == '\\' then "\\\\"
    else if c == 8 as char then "\\b"
    else if c == 12 as char then "\\f"
    else if c == '\n' then "\\n"
    else if c == '\r' then "\\r"
    else if c == '\t' then "\\t"
    else if IsControl(c) then "\\u00" + [HexDigit(c as int / 16), HexDigit(c as int % 16)]
    else [c]
  }

  function EscapeAll(s: string): string {
    if s == [] then [] else Escape(s[0]) + EscapeAll(s[1..])
  }

  function Quoted(s: string): string { "\"" + EscapeAll(s) + "\"" }

  // ---------------------------------------------------------------- the tables, character by character

  /** Hexadecimal digits of either case have their values, and no other character has one. */
  lemma HexDigitsAre(i: nat, c: char)
    requires i < 16
    ensures HexValue("0123456789abcdef"[i]) == Some(i) && HexValue("0123456789ABCDEF"[i]) == Some(i)
    ensures HexValue(c).Some? <==> c in "0123456789abcdefABCDEF"
    ensures HexDigit(i) == "0123456789ABCDEF"[i]
  {
  }

  /** The eight letters of the short escapes, and no others. */
  lemma ShortEscapesAre(i: nat, c: char)
    requires i < 8
    ensures SimpleEscape("\"\\/bfnrt"[i]) == Some("\"\\/\U{08}\U{0c}\n\r\t"[i])
    ensures SimpleEscape(c).Some? <==> c in "\"\\/bfnrt"
  {
  }

  /** What the writer makes of each character. */
  lemma EscapeTable(c: char)
    ensures Escape('"') == "\\\"" && Escape('\\') == "\\\\" && Escape('\n') == "\\n" && Escape('\r') == "\\r" && Escape('\t') == "\\t"
    ensures Escape('\U{08}') == "\\b" && Escape('\U{0c}') == "\\f"
    ensures c >= ' ' && c != '"' && c != '\\' ==> Escape(c) == [c]
    ensures c < ' ' && c !in "\U{08}\U{0c}\n\r\t" ==>
              Escape(c) == "\\u00" + ["0123456789ABCDEF"[c as int / 16], "0123456789ABCDEF"[c as int % 16]]
  {
    if c < ' ' {
      HexDigitsAre(c as int / 16, c);
      HexDigitsAre(c as int % 16, c);
    }
  }

  // ---------------------------------------------------------------- quoting and decoding

  /** The three forms an escaped character takes. */
  lemma EscapeForms(c: char)
    ensures var e := Escape(c);
            || (e == [c] && c != '"' && c != '\\')
            || (|e| == 2 && e[0] == '\\' && e[1] != 'u' && SimpleEscape(e[1]) == Some(c))
            || (c < 32 as char && e == ['\\', 'u', '0', '0', HexDigit(c as int / 16), HexDigit(c as int % 16)])
  {
  }

  /** One escaped character is decoded to itself, wherever it stands. */
  lemma DecodeEscape(text: string, pos: nat, end: nat, c: char)
    requires Occurs(text, pos, Escape(c)) && pos + |Escape(c)| <= end <= |text|
    ensures DecodeChars(text, pos, end) == Prepend([c], DecodeChars(text, pos + |Escape(c)|, end))
  {
    var e := Escape(c);
    EscapeForms(c);
    hide Escape;
    OccursAt(text, pos, e, 0);
    if |e| >= 2 { OccursAt(text, pos, e, 1); }
    if |e| == 6 {
      OccursAt(text, pos, e, 2);
      OccursAt(text, pos, e, 3);
      OccursAt(text, pos, e, 4);
      OccursAt(text, pos, e, 5);
      DecodeHexPair(text, pos + 2, c as int);
      assert CodePoint(text, pos + 2, end) == Unicode(c as int, pos + 6);
    }
  }

  lemma DecodeHexPair(text: string, pos: nat, n: nat)
    requires pos + 4 <= |text| && n < 32
    requires text[pos] == '0' && text[pos + 1] == '0'
    requires text[pos + 2] == HexDigit(n / 16) && text[pos + 3] == HexDigit(n % 16)
    ensures HexDigits(text, pos, 4, 0) == Unicode(n, pos + 4)
  {
  }

  lemma PrependHead(s: string)
    requires s != []
    ensures Prepend([s[0]], Decoded(s[1..])) == Decoded(s)
  {
  }

  /** Escaped text is its first escaped character, then the escaped rest. */
  lemma EscapeAllParts(text: string, pos: nat, s: string)
    requires Occurs(text, pos, EscapeAll(s))
    ensures pos + |EscapeAll(s)| <= |text|
    ensures s == [] ==> |EscapeAll(s)| == 0
    ensures s != [] ==>
              && |EscapeAll(s)| == |Escape(s[0])| + |EscapeAll(s[1..])|
              && Occurs(text, pos, Escape(s[0]))
              && Occurs(text, pos + |Escape(s[0])|, EscapeAll(s[1..]))
  {
    hide Escape, Occurs;
    assert pos + |EscapeAll(s)| <= |text| by { OccursFits(text, pos, EscapeAll(s)); }
    if s != [] { OccursParts(text, pos, Escape(s[0]), EscapeAll(s[1..])); }
  }

  lemma DecodeNothing(text: string, pos: nat)
    requires pos <= |text|
    ensures DecodeChars(text, pos, pos) == Decoded([])
  {
  }

  lemma {:induction false} DecodeEscaped(text: string, pos: nat, s: string)
    requires Occurs(text, pos, EscapeAll(s))
    ensures pos + |EscapeAll(s)| <= |text| && DecodeChars(text, pos, pos + |EscapeAll(s)|) == Decoded(s)
    decreases s
  {
    hide *;
    EscapeAllParts(text, pos, s);
    if s == [] {
      DecodeNothing(text, pos);
    } else {
      DecodeEscape(text, pos, pos + |EscapeAll(s)|, s[0]);
      DecodeEscaped(text, pos + |Escape(s[0])|, s[1..]);
      PrependHead(s);
    }
  }

  /** Decoding undoes quoting, for every string of bytes. */
  lemma DecodeQuoted(s: string)
    ensures DecodeString(Quoted(s)) == Decoded(s)
  {
    var text := Quoted(s);
    assert text[1..1 + |EscapeAll(s)|] == EscapeAll(s);
    DecodeEscaped(text, 1, s);
  }

  /** The scanner steps over one escaped character. */
  lemma ScanEscape(doc: string, pos: nat, c: char)
    requires Occurs(doc, pos, Escape(c))
    ensures StringEnd(doc, pos) == StringEnd(doc, pos + |Escape(c)|)
  {
    var e := Escape(c);
    EscapeForms(c);
    hide Escape;
    OccursAt(doc, pos, e, 0);
    if |e| == 6 {
      OccursAt(doc, pos, e, 2);
      OccursAt(doc, pos, e, 3);
      OccursAt(doc, pos, e, 4);
      OccursAt(doc, pos, e, 5);
      ScanPlain(doc, pos + 2, 4);
    } else if |e| == 1 {
      ScanPlain(doc, pos, 1);
    }
  }

  lemma {:induction false} ScanPlain(doc: string, pos: nat, n: nat)
    requires pos + n <= |doc|
    requires forall i :: pos <= i < pos + n ==> doc[i] != '\\' && doc[i] != '"'
    ensures StringEnd(doc, pos) == StringEnd(doc, pos + n)
    decreases n
  {
    if n > 0 { ScanPlain(doc, pos + 1, n - 1); }
  }

  lemma ScanQuote(doc: string, pos: nat)
    requires Occurs(doc, pos, "\"")
    ensures StringEnd(doc, pos) == Scan(true, pos + 1)
  {
    OccursAt(doc, pos, "\"", 0);
  }

  /** The scanner stops exactly at the quote that closes a quoted string. */
  lemma {:induction false} ScanEscaped(doc: string, pos: nat, s: string)
    requires Occurs(doc, pos, EscapeAll(s) + "\"")
    ensures StringEnd(doc, pos) == Scan(true, pos + |EscapeAll(s)| + 1)
    decreases s
  {
    hide StringEnd, Escape, EscapeAll, Occurs;
    OccursParts(doc, pos, EscapeAll(s), "\"");
    OccursFits(doc, pos + |EscapeAll(s)|, "\"");
    EscapeAllParts(doc, pos, s);
    if s == [] {
      ScanQuote(doc, pos);
    } else {
      OccursParts(doc, pos + |Escape(s[0])|, EscapeAll(s[1..]), "\"");
      ScanEscape(doc, pos, s[0]);
      ScanEscaped(doc, pos + |Escape(s[0])|, s[1..]);
    }
  }
}
