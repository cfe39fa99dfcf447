/**
 Every document the reader accepts, and among them every document of RFC 8259 (section 2 onwards) whose root is an
 array or object: any white space, any way to write a string or a number, members in any order and more than once.
 A tree is a document taken apart, white space and comments included.
 */
module JsonDocuments {
  import opened Basics
  import opened JsonValue
  import opened JsonLexer
  import opened JsonText
  import opened JsonGrammar
  import opened JsonSpelling
  import opened JsonFastText
  import opened JsonStyledText

  /** A character of a string: itself, a two-character escape, or \u and four hexadecimal digits. */
  datatype Unit = Raw(c: char) | Short(c: char) | Hex(digits: string)

  datatype Numeral = Numeral(minus: bool, whole: string, fraction: string, exponent: string)

  /** A comment and the white space behind it; one that goes to the end of its line holds that line's ending. */
  datatype Remark = Block(body: string, ws: string) | Line(body: string, ending: string, ws: string)

  /** What stands between two tokens where comments may stand. */
  datatype Gap = Gap(ws: string, remarks: seq<Remark>)

  /** What separates two members: a comma, or, behind a comment, whatever token stands there. */
  datatype Mark = Comma | Sign(c: char) | Slash(c: char) | Word(word: string) | Figure(numeral: Numeral) | Quote(text: string)

  /** `ws` is the white space before a value, `close` what stands before its closing bracket. */
  datatype Tree =
    | NullTree(ws: string)
    | BoolTree(ws: string, b: bool)
    | NumberTree(ws: string, numeral: Numeral)
    | StringTree(ws: string, units: seq<Unit>)
    | ArrayTree(ws: string, elements: Elements, close: Gap)
    | ObjectTree(ws: string, members: Members, close: Gap)

  /** `comma` is what stands before a comma, if one follows. */
  datatype Elements = NoElements | Element(value: Tree, comma: Gap, rest: Elements)

  /** `gap` stands before a name, `colon` is the white space before the colon. */
  datatype Members = NoMembers | Member(gap: Gap, name: seq<Unit>, colon: string, value: Tree, next: Next)
  datatype Next = NoNext | Another(gap: Gap, mark: Mark, rest: Members)

  // ---------------------------------------------------------------- the grammar

  predicate IsWhite(c: char) { c == ' ' || c == '\t' || c == '\r' || c == '\n' }

  predicate White(s: string) { forall i :: 0 <= i < |s| ==> IsWhite(s[i]) }

  predicate IsHexDigit(c: char) { '0' <= c <= '9' || 'a' <= c <= 'f' || 'A' <= c <= 'F' }

  predicate LegalUnit(u: Unit) {
    match u
    case Raw(c) => c != '"' && c != '\\'
    case Short(c) => c == '"' || c == '\\' || c == '/' || c == 'b' || c == 'f' || c == 'n' || c == 'r' || c == 't'
    case Hex(digits) => |digits| == 4 && forall i :: 0 <= i < 4 ==> IsHexDigit(digits[i])
  }

  predicate LegalUnits(units: seq<Unit>) { forall i :: 0 <= i < |units| ==> LegalUnit(units[i]) }

  predicate IsFraction(s: string) { s == "" || (s[0] == '.' && AllDigits(s[1..])) }

  predicate IsExponent(s: string) {
    s == "" || ((s[0] == 'e' || s[0] == 'E') &&
                (if |s| >= 2 && (s[1] == '+' || s[1] == '-') then AllDigits(s[2..]) else AllDigits(s[1..])))
  }

  /** The numbers of the standard, those with leading zeros, and those that lack the digits of a part. */
  predicate LegalNumeral(n: Numeral) {
    (n.minus || n.whole != "") && AllDigits(n.whole) && IsFraction(n.fraction) && IsExponent(n.exponent)
  }

  predicate LegalRemark(r: Remark) {
    White(r.ws) &&
    match r
    case Block(body, _) => forall i :: 0 <= i < |body| - 1 ==> !(body[i] == '*' && body[i + 1] == '/')
    case Line(body, ending, ws) =>
      && (forall i :: 0 <= i < |body| ==> body[i] != '\n' && body[i] != '\r')
      && (ending == "\n" || ending == "\r\n" || (ending == "\r" && (ws == "" || ws[0] != '\n')))
  }

  predicate LegalGap(g: Gap) { White(g.ws) && forall i :: 0 <= i < |g.remarks| ==> LegalRemark(g.remarks[i]) }

  /** No quote ends this text early: a backslash takes the next character with it. */
  predicate Unended(s: string) {
    s == "" || (if s[0] == '\\' then |s| >= 2 && Unended(s[2..]) else s[0] != '"' && Unended(s[1..]))
  }

  predicate LegalMark(m: Mark) {
    match m
    case Comma => true
    case Sign(c) => c != '}' && c != '"' && c != '/' && c != ',' && c != '-' && !('0' <= c <= '9') && !IsWhite(c)
    case Slash(c) => c != '*' && c != '/'
    case Word(w) => w == "null" || w == "true" || w == "false"
    case Figure(n) => LegalNumeral(n)
    case Quote(s) => Unended(s)
  }

  predicate Legal(t: Tree)
    decreases t
  {
    White(t.ws) &&
    match t
    case NumberTree(_, n) => LegalNumeral(n)
    case StringTree(_, units) => LegalUnits(units)
    case ArrayTree(_, es, close) => LegalGap(close) && LegalElements(es) && (es.NoElements? ==> close.remarks == [])
    case ObjectTree(_, ms, close) => LegalGap(close) && LegalMembers(ms)
    case _ => true
  }

  predicate LegalElements(es: Elements)
    decreases es
  {
    es.Element? ==> Legal(es.value) && LegalGap(es.comma) && LegalElements(es.rest)
  }

  predicate LegalMembers(ms: Members)
    decreases ms
  {
    ms.Member? ==>
      && LegalGap(ms.gap) && LegalUnits(ms.name) && White(ms.colon) && Legal(ms.value) && LegalNext(ms.next)
      && (ms.next.Another? && ms.next.rest.NoMembers? ==> Bytes(ms.name) == Some(""))
  }

  /** Only behind a comment does another token pass for a comma. */
  predicate LegalNext(next: Next)
    decreases next
  {
    next.Another? ==> LegalGap(next.gap) && LegalMark(next.mark) && (next.mark != Comma ==> next.gap.remarks != []) && LegalMembers(next.rest)
  }

  function UnitText(u: Unit): string {
    match u
    case Raw(c) => [c]
    case Short(c) => ['\\', c]
    case Hex(digits) => "\\u" + digits
  }

  function UnitsText(units: seq<Unit>): string {
    if units == [] then "" else UnitText(units[0]) + UnitsText(units[1..])
  }

  function StringText(units: seq<Unit>): string { "\"" + (UnitsText(units) + "\"") }

  function NumeralText(n: Numeral): string { (if n.minus then "-" else "") + (n.whole + (n.fraction + n.exponent)) }

  function RemarkText(r: Remark): string {
    match r
    case Block(body, ws) => "/*" + (body + ("*/" + ws))
    case Line(body, ending, ws) => "//" + (body + (ending + ws))
  }

  function RemarksText(rs: seq<Remark>): string {
    if rs == [] then "" else RemarkText(rs[0]) + RemarksText(rs[1..])
  }

  function GapText(g: Gap): string { g.ws + RemarksText(g.remarks) }

  function MarkText(m: Mark): string {
    match m
    case Comma => ","
    case Sign(c) => [c]
    case Slash(c) => ['/', c]
    case Word(w) => w
    case Figure(n) => NumeralText(n)
    case Quote(s) => "\"" + (s + "\"")
  }

  function TreeText(t: Tree): string
    decreases t, 1
  {
    t.ws + BodyText(t)
  }

  function BodyText(t: Tree): string
    decreases t, 0
  {
    match t
    case NullTree(_) => "null"
    case BoolTree(_, b) => if b then "true" else "false"
    case NumberTree(_, n) => NumeralText(n)
    case StringTree(_, units) => StringText(units)
    case ArrayTree(_, es, close) => "[" + ElementsText(es, close)
    case ObjectTree(_, ms, close) => "{" + MembersText(ms, close)
  }

  /** The elements and the closing bracket. */
  function ElementsText(es: Elements, close: Gap): string
    decreases es
  {
    if es.NoElements? then GapText(close) + "]" else TreeText(es.value) + ElementsTail(es, close)
  }

  function ElementsTail(es: Elements, close: Gap): string
    requires es.Element?
    decreases es, 0
  {
    if es.rest.NoElements? then GapText(close) + "]" else GapText(es.comma) + ("," + ElementsText(es.rest, close))
  }

  function MembersText(ms: Members, close: Gap): string
    decreases ms
  {
    if ms.NoMembers? then GapText(close) + "}"
    else GapText(ms.gap) + (StringText(ms.name) + (ms.colon + (":" + (TreeText(ms.value) + NextText(ms.next, close)))))
  }

  function NextText(next: Next, close: Gap): string
    decreases next
  {
    if next.NoNext? then GapText(close) + "}" else GapText(next.gap) + (MarkText(next.mark) + MembersText(next.rest, close))
  }

  // ---------------------------------------------------------------- the meaning

  predicate HighSurrogate(code: nat) { 0xD800 <= code <= 0xDBFF }

  /** The value of a hexadecimal digit. */
  function Nibble(c: char): nat
    requires IsHexDigit(c)
  {
    if c <= '9' then c as int - '0' as int else if c <= 'F' then c as int - 'A' as int + 10 else c as int - 'a' as int + 10
  }

  /** The character a two-character escape stands for. */
  function ShortMeaning(c: char): char {
    if c == 'b' then '\U{08}'
    else if c == 'f' then '\U{0c}'
    else if c == 'n' then '\n'
    else if c == 'r' then '\r'
    else if c == 't' then '\t'
    else c
  }

  function HexCode(digits: string): nat
    requires LegalUnit(Hex(digits))
  {
    ((Nibble(digits[0]) * 16 + Nibble(digits[1])) * 16 + Nibble(digits[2])) * 16 + Nibble(digits[3])
  }

  /** The bytes a string stands for, in UTF-8; None if a high surrogate is not followed by an escape for its second half. */
  function Bytes(units: seq<Unit>): Option<string>
    requires LegalUnits(units)
  {
    if units == [] then Some("")
    else
      match units[0]
      case Raw(c) => Joined([c], Bytes(units[1..]))
      case Short(c) => Joined([ShortMeaning(c)], Bytes(units[1..]))
      case Hex(digits) =>
        var code := HexCode(digits);
        if !HighSurrogate(code) then Joined(Utf8(code), Bytes(units[1..]))
        else if |units| >= 2 && units[1].Hex? then
          Joined(Utf8(0x10000 + (code - 0xD800) * 0x400 + HexCode(units[1].digits) % 0x400), Bytes(units[2..]))
        else None
  }

  function Joined(a: string, b: Option<string>): Option<string> {
    if b.Some? then Some(a + b.value) else None
  }

  /** Digits alone, after an optional minus, stand for a 64-bit integer if it has room; the rest is for `toDouble`. */
  function NumeralMeaning(toDouble: ToDouble, n: Numeral): Option<Payload>
    requires LegalNumeral(n)
  {
    var v := DigitsValue(n.whole);
    if n.fraction == "" && n.exponent == "" && v <= (if n.minus then 0x8000_0000_0000_0000 else 0xFFFF_FFFF_FFFF_FFFF) then
      Some(if n.minus then IntValue(0 - v) else if v < 0x8000_0000 then IntValue(v) else UIntValue(v))
    else
      var r := toDouble(NumeralText(n));
      if r.Some? then Some(RealValue(r.value)) else None
  }

  /** The value a document stands for; None if one of its strings stands for none, or a number has no double. */
  function Meaning(toDouble: ToDouble, t: Tree): Option<Payload>
    requires Legal(t)
    decreases t
  {
    match t
    case NullTree(_) => Some(NullValue)
    case BoolTree(_, b) => Some(BoolValue(b))
    case NumberTree(_, n) => NumeralMeaning(toDouble, n)
    case StringTree(_, units) =>
      var s := Bytes(units);
      if s.Some? then Some(StringValue(s.value)) else None
    case ArrayTree(_, es, _) =>
      var items := Items(toDouble, es, 0);
      if items.Some? then Some(ArrayValue(items.value)) else None
    case ObjectTree(_, ms, _) =>
      var members := Named(toDouble, Nil, ms);
      if members.Some? then Some(ObjectValue(members.value)) else None
  }

  function Items(toDouble: ToDouble, es: Elements, i: nat): Option<Entries>
    requires LegalElements(es)
    decreases es
  {
    if es.NoElements? then Some(Nil)
    else
      var p, rest := Meaning(toDouble, es.value), Items(toDouble, es.rest, i + 1);
      if p.Some? && rest.Some? then Some(Cons(Index(i), Node(p.value, 0, 0), rest.value)) else None
  }

  /** The members added to those before, a later one in the place of an earlier one of its name. */
  function Named(toDouble: ToDouble, done: Entries, ms: Members): Option<Entries>
    requires LegalMembers(ms)
    decreases ms
  {
    if ms.NoMembers? then Some(done)
    else
      var name, p := Bytes(ms.name), Meaning(toDouble, ms.value);
      if name.None? || p.None? then None
      else
        var more := Put(done, Name(name.value), Node(p.value, 0, 0));
        assert LegalNext(ms.next);
        if ms.next.NoNext? then Some(more) else Named(toDouble, more, ms.next.rest)
  }

  /** The members behind the first. */
  function Rest(ms: Members): (rest: Members)
    requires ms.Member?
    ensures LegalMembers(ms) ==> LegalMembers(rest)
  {
    assert LegalMembers(ms) ==> LegalNext(ms.next);
    if ms.next.NoNext? then NoMembers else ms.next.rest
  }

  /** Nesting, as Depth counts it. */
  function Nesting(t: Tree): nat
    decreases t
  {
    match t
    case ArrayTree(_, es, _) => 1 + ElementsNesting(es)
    case ObjectTree(_, ms, _) => 1 + MembersNesting(ms)
    case _ => 1
  }

  function ElementsNesting(es: Elements): nat
    decreases es
  {
    if es.NoElements? then 0 else Max(Nesting(es.value), ElementsNesting(es.rest))
  }

  function MembersNesting(ms: Members): nat
    decreases ms
  {
    if ms.NoMembers? then 0 else Max(Nesting(ms.value), if ms.next.NoNext? then 0 else MembersNesting(ms.next.rest))
  }

  // ---------------------------------------------------------------- the tables against the reader's functions

  lemma NibbleIsHex(c: char)
    ensures HexValue(c) == if IsHexDigit(c) then Some(Nibble(c)) else None
  {
  }

  lemma ShortIsSimple(c: char)
    ensures SimpleEscape(c) == if LegalUnit(Short(c)) then Some(ShortMeaning(c)) else None
  {
  }

  /** Where `c` stands among the digits is its value. */
  lemma NibbleIs(i: nat)
    requires i < 16
    ensures var lower, upper := "0123456789abcdef"[i], "0123456789ABCDEF"[i];
            IsHexDigit(lower) && Nibble(lower) == i && IsHexDigit(upper) && Nibble(upper) == i
  {
  }

  // ---------------------------------------------------------------- tokens past white space and comments

  /** What may stand behind a value or a number. */
  predicate Ends(doc: string, pos: nat) {
    pos < |doc| && (IsWhite(doc[pos]) || doc[pos] == ',' || doc[pos] == ']' || doc[pos] == '}' || doc[pos] == '/' || doc[pos] == '"')
  }

  lemma EndsIs(doc: string, pos: nat)
    requires Ends(doc, pos)
    ensures Stops(doc, pos) && pos < |doc| && doc[pos] != '+' && doc[pos] != '-'
    ensures doc[pos] != 'r' && doc[pos] != 'a' && doc[pos] != 'u' && doc[pos] != '.'
  {
  }

  lemma WhiteBlank(doc: string, pos: nat, ws: string)
    requires Occurs(doc, pos, ws) && White(ws)
    ensures Blank(doc, pos, pos + |ws|)
  {
    forall i | pos <= i < pos + |ws| ensures IsSpace(doc[i]) { OccursAt(doc, pos, ws, i - pos); }
  }

  /** A token that stands behind white space is read from before it. */
  lemma SpacedToken(doc: string, pos: nat, ws: string, rest: string)
    requires Occurs(doc, pos, ws + rest) && White(ws)
    ensures pos + |ws| <= |doc| && Occurs(doc, pos + |ws|, rest)
    ensures ReadToken(doc, pos) == ReadToken(doc, pos + |ws|) && SkipSpaces(doc, pos) == SkipSpaces(doc, pos + |ws|)
  {
    OccursParts(doc, pos, ws, rest);
    WhiteBlank(doc, pos, ws);
    BlankSkips(doc, pos, pos + |ws|);
    hide TokenAt;
  }

  lemma PunctuationAt(doc: string, pos: nat, kind: TokenType, c: char)
    requires Occurs(doc, pos, [c]) && IsPunctuation(kind, c)
    ensures pos + 1 <= |doc| && ReadToken(doc, pos) == Token(kind, pos, pos + 1)
  {
    OccursAt(doc, pos, [c], 0);
  }

  /** White space, then a punctuation mark, then the rest. */
  lemma Separated(doc: string, pos: nat, ws: string, kind: TokenType, c: char, rest: string)
    requires Occurs(doc, pos, ws + ([c] + rest)) && White(ws) && IsPunctuation(kind, c)
    ensures pos + |ws| + 1 <= |doc| && ReadToken(doc, pos) == Token(kind, pos + |ws|, pos + |ws| + 1)
    ensures Occurs(doc, pos + |ws| + 1, rest)
  {
    hide Occurs, ReadToken, White;
    SpacedToken(doc, pos, ws, [c] + rest);
    OccursParts(doc, pos + |ws|, [c], rest);
    PunctuationAt(doc, pos + |ws|, kind, c);
  }

  lemma {:induction false} BlockStop(doc: string, pos: nat, body: string)
    requires Occurs(doc, pos, body + "*/")
    requires forall i :: 0 <= i < |body| - 1 ==> !(body[i] == '*' && body[i + 1] == '/')
    ensures pos + |body| + 2 <= |doc| && CStyleStop(doc, pos) == pos + |body| + 1 && doc[pos + |body| + 1] == '/'
    decreases body
  {
    var s := body + "*/";
    OccursFits(doc, pos, s);
    OccursAt(doc, pos, s, 0);
    OccursAt(doc, pos, s, 1);
    if body != "" {
      assert s == s[..1] + (body[1..] + "*/");
      OccursParts(doc, pos, s[..1], body[1..] + "*/");
      BlockStop(doc, pos + 1, body[1..]);
    }
  }

  lemma {:induction false} LineStop(doc: string, pos: nat, body: string, ending: string)
    requires Occurs(doc, pos, body + ending)
    requires forall i :: 0 <= i < |body| ==> body[i] != '\n' && body[i] != '\r'
    requires ending == "\n" || ending == "\r\n" || (ending == "\r" && Peek(doc, pos + |body| + 1) != '\n')
    ensures pos + |body| + |ending| <= |doc| && CppStyleEnd(doc, pos) == pos + |body| + |ending|
    decreases body
  {
    var s := body + ending;
    OccursFits(doc, pos, s);
    OccursAt(doc, pos, s, 0);
    if body != "" {
      assert s == s[..1] + (body[1..] + ending);
      OccursParts(doc, pos, s[..1], body[1..] + ending);
      LineStop(doc, pos + 1, body[1..], ending);
    } else if ending == "\r\n" {
      OccursAt(doc, pos, s, 1);
    }
  }

  /** The token of a comment, up to its scanner. */
  lemma CommentStarts(doc: string, pos: nat)
    requires pos < |doc| && doc[pos] == '/'
    ensures ReadToken(doc, pos) == Scanned(Comment, pos, CommentEnd(doc, pos + 1))
  {
    hide CommentEnd;
  }

  /** Something that is no line feed follows. */
  predicate Follows(rest: string) { rest != "" && !IsWhite(rest[0]) }

  lemma RemarkToken(doc: string, pos: nat, r: Remark, rest: string)
    requires LegalRemark(r) && Occurs(doc, pos, RemarkText(r) + rest) && Follows(rest)
    ensures var t := ReadToken(doc, pos); var next := pos + |RemarkText(r)|;
            && next < |doc| && t.kind == Comment && t.end == next - |r.ws| && Occurs(doc, next, rest) && Occurs(doc, t.end, r.ws + rest)
  {
    hide CommentEnd, ReadToken, White, Occurs;
    var next := pos + |RemarkText(r)|;
    OccursParts(doc, pos, RemarkText(r), rest);
    OccursFits(doc, next, rest);
    match r {
      case Block(body, ws) => BlockEnds(doc, pos, body, ws, rest);
      case Line(body, ending, ws) => LineEnds(doc, pos, body, ending, ws, rest);
    }
    CommentStarts(doc, pos);
  }

  lemma BlockEnds(doc: string, pos: nat, body: string, ws: string, rest: string)
    requires LegalRemark(Block(body, ws)) && Occurs(doc, pos, RemarkText(Block(body, ws)) + rest)
    ensures pos + 4 + |body| <= |doc| && doc[pos] == '/' && CommentEnd(doc, pos + 1) == Scan(true, pos + 4 + |body|)
    ensures Occurs(doc, pos + 4 + |body|, ws + rest)
  {
    hide CStyleStop, White, Occurs;
    RemarkSplits(doc, pos, "/*", body, "*/", ws, rest);
    BlockStop(doc, pos + 2, body);
    PairAt(doc, pos, "/*");
  }

  lemma PairAt(doc: string, pos: nat, pair: string)
    requires Occurs(doc, pos, pair) && |pair| == 2
    ensures pos + 2 <= |doc| && doc[pos] == pair[0] && doc[pos + 1] == pair[1]
  {
  }

  lemma LineEnds(doc: string, pos: nat, body: string, ending: string, ws: string, rest: string)
    requires LegalRemark(Line(body, ending, ws)) && Occurs(doc, pos, RemarkText(Line(body, ending, ws)) + rest) && Follows(rest)
    ensures var end := pos + 2 + |body| + |ending|;
            end <= |doc| && doc[pos] == '/' && CommentEnd(doc, pos + 1) == Scan(true, end) && Occurs(doc, end, ws + rest)
  {
    hide CppStyleEnd, White, Occurs;
    RemarkSplits(doc, pos, "//", body, ending, ws, rest);
    PairAt(doc, pos, "//");
    LineFollows(doc, pos + 2 + |body|, ending, ws, rest);
    LineStop(doc, pos + 2, body, ending);
  }

  /** The white space behind a carriage return that ends a comment does not start with a line feed. */
  lemma LineFollows(doc: string, at: nat, ending: string, ws: string, rest: string)
    requires Occurs(doc, at + |ending|, ws + rest) && Follows(rest)
    requires ending == "\n" || ending == "\r\n" || (ending == "\r" && (ws == "" || ws[0] != '\n'))
    ensures ending == "\n" || ending == "\r\n" || (ending == "\r" && Peek(doc, at + 1) != '\n')
  {
    OccursAt(doc, at + |ending|, ws + rest, 0);
  }

  lemma RemarkSplits(doc: string, pos: nat, open: string, body: string, ending: string, ws: string, rest: string)
    requires Occurs(doc, pos, (open + (body + (ending + ws))) + rest)
    ensures Occurs(doc, pos + |open|, body + ending) && Occurs(doc, pos + |open| + |body| + |ending|, ws + rest)
    ensures Occurs(doc, pos, open)
  {
    hide Occurs;
    assert (open + (body + (ending + ws))) + rest == open + ((body + ending) + (ws + rest));
    OccursParts(doc, pos, open, (body + ending) + (ws + rest));
    OccursParts(doc, pos + |open|, body + ending, ws + rest);
  }

  lemma RemarksForms(rs: seq<Remark>, rest: string)
    requires Follows(rest)
    ensures rs == [] ==> RemarksText(rs) + rest == rest
    ensures rs != [] ==>
              && RemarksText(rs) + rest == RemarkText(rs[0]) + (RemarksText(rs[1..]) + rest)
              && |RemarksText(rs)| == |RemarkText(rs[0])| + |RemarksText(rs[1..])|
    ensures Follows(RemarksText(rs) + rest)
  {
    if rs != [] { Assoc(RemarkText(rs[0]), RemarksText(rs[1..]), rest); }
  }

  lemma {:induction false} RemarksRead(doc: string, pos: nat, rs: seq<Remark>, rest: string)
    requires (forall i :: 0 <= i < |rs| ==> LegalRemark(rs[i])) && Occurs(doc, pos, RemarksText(rs) + rest) && Follows(rest)
    requires pos + |RemarksText(rs)| <= |doc| ==> ReadToken(doc, pos + |RemarksText(rs)|).kind != Comment
    ensures var at := pos + |RemarksText(rs)|;
            && at < |doc| && Occurs(doc, at, rest)
            && SkipComments(doc, ReadToken(doc, pos)) == ReadToken(doc, at)
            && (rs != [] <==> ReadToken(doc, pos).kind == Comment)
    decreases |rs|
  {
    hide Occurs, ReadToken, SkipComments, RemarkText, LegalRemark, White, RemarksText;
    RemarksForms(rs, rest);
    OccursParts(doc, pos, RemarksText(rs), rest);
    OccursFits(doc, pos + |RemarksText(rs)|, rest);
    if rs == [] {
      NoRemarks(doc, pos);
    } else {
      var tail := RemarksText(rs[1..]) + rest;
      RemarksForms(rs[1..], rest);
      RemarkToken(doc, pos, rs[0], tail);
      var t, next := ReadToken(doc, pos), pos + |RemarkText(rs[0])|;
      RemarkWhite(rs[0]);
      SpacedToken(doc, t.end, rs[0].ws, tail);
      SkipOne(doc, t);
      RemarksRead(doc, next, rs[1..], rest);
    }
  }

  lemma RemarkWhite(r: Remark)
    requires LegalRemark(r)
    ensures White(r.ws)
  {
  }

  lemma NoRemarks(doc: string, pos: nat)
    requires pos <= |doc|
    ensures RemarksText([]) == ""
    ensures ReadToken(doc, pos).kind != Comment ==> SkipComments(doc, ReadToken(doc, pos)) == ReadToken(doc, pos)
  {
  }

  lemma SkipOne(doc: string, t: Token)
    requires t.start < t.end <= |doc| && t.kind == Comment
    ensures SkipComments(doc, t) == SkipComments(doc, ReadToken(doc, t.end))
  {
    hide ReadToken;
  }

  /** A token that stands behind white space and comments is the next one that is no comment. */
  lemma GapRead(doc: string, pos: nat, g: Gap, rest: string)
    requires LegalGap(g) && Occurs(doc, pos, GapText(g) + rest) && Follows(rest)
    requires pos + |GapText(g)| <= |doc| ==> ReadToken(doc, pos + |GapText(g)|).kind != Comment
    ensures var at, first := pos + |GapText(g)|, ReadToken(doc, pos);
            && at < |doc| && Occurs(doc, at, rest)
            && SkipComments(doc, first) == ReadToken(doc, at)
            && (g.remarks != [] <==> first.kind == Comment) && (g.remarks == [] ==> first == ReadToken(doc, at))
  {
    hide Occurs, ReadToken, SkipComments, RemarksText, LegalRemark, White;
    Assoc(g.ws, RemarksText(g.remarks), rest);
    SpacedToken(doc, pos, g.ws, RemarksText(g.remarks) + rest);
    RemarksRead(doc, pos + |g.ws|, g.remarks, rest);
    NoRemarks(doc, pos);
  }

  lemma GapPunctuation(doc: string, pos: nat, g: Gap, kind: TokenType, c: char, rest: string)
    requires LegalGap(g) && Occurs(doc, pos, GapText(g) + ([c] + rest)) && IsPunctuation(kind, c)
    ensures var at, first := pos + |GapText(g)|, ReadToken(doc, pos);
            && at < |doc| && Occurs(doc, at + 1, rest)
            && SkipComments(doc, first) == Token(kind, at, at + 1)
            && first.kind == (if g.remarks == [] then kind else Comment)
            && Occurs(doc, pos, GapText(g))
  {
    hide Occurs, ReadToken, SkipComments, GapText, LegalGap;
    OccursParts(doc, pos, GapText(g), [c] + rest);
    OccursParts(doc, pos + |GapText(g)|, [c], rest);
    PunctuationAt(doc, pos + |GapText(g)|, kind, c);
    PunctuationFollows(kind, c, rest);
    GapRead(doc, pos, g, [c] + rest);
  }

  lemma PunctuationFollows(kind: TokenType, c: char, rest: string)
    requires IsPunctuation(kind, c)
    ensures Follows([c] + rest)
  {
  }

  /** A gap starts with white space or a slash; behind a value, with what follows it, it ends a number. */
  lemma GapEnds(doc: string, pos: nat, g: Gap, rest: string)
    requires LegalGap(g) && Occurs(doc, pos, GapText(g) + rest) && rest != ""
    requires GapText(g) == "" ==> rest[0] == ',' || rest[0] == ']' || rest[0] == '}' || rest[0] == '"'
    ensures Ends(doc, pos)
  {
    OccursAt(doc, pos, GapText(g) + rest, 0);
    if GapText(g) != "" { GapStarts(g); }
  }

  lemma GapStarts(g: Gap)
    requires LegalGap(g) && GapText(g) != ""
    ensures IsWhite(GapText(g)[0]) || GapText(g)[0] == '/'
  {
    if g.ws == "" {
      assert g.remarks != [] && GapText(g) == RemarksText(g.remarks);
      assert RemarkText(g.remarks[0])[0] == '/';
    }
  }

  // ---------------------------------------------------------------- numbers

  lemma FractionEnds(doc: string, pos: nat, s: string)
    requires Occurs(doc, pos, s) && IsFraction(s)
    requires pos + |s| < |doc| ==> !IsDigit(doc[pos + |s|]) && doc[pos + |s|] != '.'
    ensures pos + |s| <= |doc| && FractionEnd(doc, pos) == pos + |s|
  {
    if s != "" {
      OccursAt(doc, pos, s, 0);
      assert s == s[..1] + s[1..];
      OccursParts(doc, pos, s[..1], s[1..]);
      SkipDigitsOver(doc, pos + 1, s[1..]);
    }
  }

  lemma ExponentEnds(doc: string, pos: nat, s: string)
    requires Occurs(doc, pos, s) && IsExponent(s) && Ends(doc, pos + |s|)
    ensures pos + |s| <= |doc| && ExponentEnd(doc, pos) == pos + |s|
  {
    EndsIs(doc, pos + |s|);
    if s != "" {
      OccursAt(doc, pos, s, 0);
      if |s| >= 2 { OccursAt(doc, pos, s, 1); }
      var k := if |s| >= 2 && (s[1] == '+' || s[1] == '-') then 2 else 1;
      assert s == s[..k] + s[k..];
      OccursParts(doc, pos, s[..k], s[k..]);
      SkipDigitsOver(doc, pos + k, s[k..]);
      assert |s| >= 2 && k == 1 ==> IsDigit(s[1..][0]);
    }
  }

  /** What stands behind the whole part, or the fraction, of a number. */
  lemma AfterDigits(doc: string, pos: nat, fraction: string, exponent: string)
    requires Occurs(doc, pos, fraction + exponent) && IsFraction(fraction) && IsExponent(exponent)
    requires Ends(doc, pos + |fraction + exponent|)
    ensures pos < |doc| ==> !IsDigit(doc[pos])
    ensures fraction == "" ==> pos < |doc| ==> doc[pos] != '.'
  {
    EndsIs(doc, pos + |fraction + exponent|);
    if fraction + exponent != "" { OccursAt(doc, pos, fraction + exponent, 0); }
  }

  lemma NumeralEnds(doc: string, pos: nat, digits: string, n: Numeral)
    requires Occurs(doc, pos, digits + (n.fraction + n.exponent)) && AllDigits(digits) && LegalNumeral(n)
    requires Ends(doc, pos + |digits + (n.fraction + n.exponent)|)
    ensures pos + |digits + (n.fraction + n.exponent)| <= |doc|
    ensures NumberEnd(doc, pos) == pos + |digits + (n.fraction + n.exponent)|
  {
    hide IsFraction, IsExponent, Occurs, FractionEnd, ExponentEnd, SkipDigits, Ends;
    var fraction, exponent := n.fraction, n.exponent;
    var a := pos + |digits|;
    var b := a + |fraction|;
    OccursParts(doc, pos, digits, fraction + exponent);
    OccursParts(doc, a, fraction, exponent);
    AfterDigits(doc, a, fraction, exponent);
    NoFraction(exponent);
    AfterDigits(doc, b, "", exponent);
    SkipDigitsOver(doc, pos, digits);
    FractionEnds(doc, a, fraction);
    ExponentEnds(doc, b, exponent);
  }

  lemma NoFraction(s: string)
    ensures IsFraction("") && "" + s == s
  {
  }

  lemma NumeralToken(doc: string, pos: nat, n: Numeral)
    requires LegalNumeral(n) && Occurs(doc, pos, NumeralText(n)) && Ends(doc, pos + |NumeralText(n)|)
    ensures pos + |NumeralText(n)| <= |doc| && ReadToken(doc, pos) == Token(Number, pos, pos + |NumeralText(n)|)
  {
    hide IsFraction, IsExponent, NumberEnd, ReadToken, Ends;
    var text := NumeralText(n);
    var digits := if n.minus then n.whole else n.whole[1..];
    assert text == text[..1] + (digits + (n.fraction + n.exponent));
    OccursParts(doc, pos, text[..1], digits + (n.fraction + n.exponent));
    OccursAt(doc, pos, text, 0);
    NumeralEnds(doc, pos + 1, digits, n);
    NumberStarts(doc, pos);
  }

  /** The reader's rule for numbers is the one that `NumeralMeaning` states. */
  lemma NumeralDecodes(toDouble: ToDouble, n: Numeral)
    requires LegalNumeral(n)
    ensures DecodeNumber(toDouble, NumeralText(n)) == NumeralMeaning(toDouble, n)
  {
    hide DigitsValue, AllDigits, IsFraction, IsExponent, Magnitude, IsNegative;
    NumeralParts(n);
    TailIsNoDigits(n);
  }

  lemma NumeralParts(n: Numeral)
    requires LegalNumeral(n)
    ensures Magnitude(NumeralText(n)) == n.whole + (n.fraction + n.exponent) && IsNegative(NumeralText(n)) == n.minus
    ensures NumeralText(n) != ""
  {
    hide IsFraction, IsExponent;
    var text, tail := NumeralText(n), n.whole + (n.fraction + n.exponent);
    if n.minus { assert text == "-" + tail; } else { assert text == tail; }
  }

  lemma TailIsNoDigits(n: Numeral)
    requires LegalNumeral(n)
    ensures var rest := n.whole + (n.fraction + n.exponent);
            if n.fraction == "" && n.exponent == "" then rest == n.whole && AllDigits(rest) else !AllDigits(rest)
  {
    var tail := n.fraction + n.exponent;
    if tail != "" {
      assert (n.whole + tail)[|n.whole|] == tail[0];
    } else {
      assert n.whole + tail == n.whole;
    }
  }

  // ---------------------------------------------------------------- strings

  lemma UnitsParts(text: string, pos: nat, units: seq<Unit>, after: string)
    requires units != [] && Occurs(text, pos, UnitsText(units) + after)
    ensures var next := pos + |UnitText(units[0])|;
            && Occurs(text, pos, UnitText(units[0])) && Occurs(text, next, UnitsText(units[1..]) + after)
            && |UnitsText(units)| == |UnitText(units[0])| + |UnitsText(units[1..])|
  {
    hide UnitText, Occurs;
    Assoc(UnitText(units[0]), UnitsText(units[1..]), after);
    OccursParts(text, pos, UnitText(units[0]), UnitsText(units[1..]) + after);
  }

  lemma ScanUnit(doc: string, pos: nat, u: Unit)
    requires Occurs(doc, pos, UnitText(u)) && LegalUnit(u)
    ensures pos + |UnitText(u)| <= |doc| && StringEnd(doc, pos) == StringEnd(doc, pos + |UnitText(u)|)
  {
    hide StringEnd;
    var e := UnitText(u);
    OccursFits(doc, pos, e);
    OccursAt(doc, pos, e, 0);
    match u {
      case Raw(_) => ScanPlain(doc, pos);
      case Short(_) => ScanPair(doc, pos);
      case Hex(digits) =>
        HexUnit(doc, pos, digits);
        assert doc[pos + 2] == digits[0] && doc[pos + 3] == digits[1] && doc[pos + 4] == digits[2] && doc[pos + 5] == digits[3];
        ScanPair(doc, pos);
        ScanPlain(doc, pos + 2);
        ScanPlain(doc, pos + 3);
        ScanPlain(doc, pos + 4);
        ScanPlain(doc, pos + 5);
    }
  }

  lemma ScanPlain(doc: string, pos: nat)
    requires pos < |doc| && doc[pos] != '"' && doc[pos] != '\\'
    ensures StringEnd(doc, pos) == StringEnd(doc, pos + 1)
  {
  }

  lemma ScanPair(doc: string, pos: nat)
    requires pos + 1 < |doc| && doc[pos] == '\\'
    ensures StringEnd(doc, pos) == StringEnd(doc, pos + 2)
  {
  }

  /** A hexadecimal escape where it stands: its digits are neither quotes nor backslashes. */
  lemma HexUnit(doc: string, pos: nat, digits: string)
    requires Occurs(doc, pos, "\\u" + digits) && LegalUnit(Hex(digits))
    ensures pos + 6 <= |doc| && doc[pos] == '\\' && doc[pos + 1] == 'u'
    ensures forall i {:trigger digits[i]} :: 0 <= i < 4 ==> doc[pos + 2 + i] == digits[i] && digits[i] != '"' && digits[i] != '\\'
  {
    var e := "\\u" + digits;
    OccursAt(doc, pos, e, 0);
    OccursAt(doc, pos, e, 1);
    forall i | 0 <= i < 4 ensures doc[pos + 2 + i] == digits[i] && digits[i] != '"' && digits[i] != '\\' {
      OccursAt(doc, pos, e, 2 + i);
    }
  }

  /** The scanner stops at the closing quote, whatever the string holds. */
  lemma {:induction false} ScanUnits(doc: string, pos: nat, units: seq<Unit>)
    requires LegalUnits(units) && Occurs(doc, pos, UnitsText(units) + "\"")
    ensures pos + |UnitsText(units)| + 1 <= |doc| && StringEnd(doc, pos) == Scan(true, pos + |UnitsText(units)| + 1)
    decreases |units|
  {
    hide StringEnd, UnitText, Occurs, LegalUnit;
    if units == [] {
      assert UnitsText(units) + "\"" == "\"";
      OccursFits(doc, pos, "\"");
      ScanQuote(doc, pos);
    } else {
      UnitsParts(doc, pos, units, "\"");
      ScanUnit(doc, pos, units[0]);
      ScanUnits(doc, pos + |UnitText(units[0])|, units[1..]);
    }
  }

  lemma StringTokenAt(doc: string, pos: nat, units: seq<Unit>)
    requires LegalUnits(units) && Occurs(doc, pos, StringText(units))
    ensures pos + |StringText(units)| <= |doc| && ReadToken(doc, pos) == Token(String, pos, pos + |StringText(units)|)
  {
    hide StringEnd, UnitsText, ReadToken, Occurs;
    OccursParts(doc, pos, "\"", UnitsText(units) + "\"");
    QuoteAt(doc, pos);
    ScanUnits(doc, pos + 1, units);
    StringStarts(doc, pos);
  }

  lemma QuoteAt(doc: string, pos: nat)
    requires Occurs(doc, pos, "\"")
    ensures pos < |doc| && doc[pos] == '"'
  {
  }

  lemma HexDecodes(text: string, pos: nat, digits: string)
    requires Occurs(text, pos, "\\u" + digits) && LegalUnit(Hex(digits))
    ensures pos + 6 <= |text| && HexDigits(text, pos + 2, 4, 0) == Unicode(HexCode(digits), pos + 6)
  {
    HexUnit(text, pos, digits);
    assert text[pos + 2] == digits[0] && text[pos + 3] == digits[1] && text[pos + 4] == digits[2] && text[pos + 5] == digits[3];
    NibbleIsHex(digits[0]);
    NibbleIsHex(digits[1]);
    NibbleIsHex(digits[2]);
    NibbleIsHex(digits[3]);
    var d0, d1, d2 := Nibble(digits[0]), Nibble(digits[1]), Nibble(digits[2]);
    hide HexValue, Nibble, IsHexDigit;
    assert HexDigits(text, pos + 2, 4, 0) == HexDigits(text, pos + 3, 3, d0);
    assert HexDigits(text, pos + 3, 3, d0) == HexDigits(text, pos + 4, 2, d0 * 16 + d1);
    assert HexDigits(text, pos + 4, 2, d0 * 16 + d1) == HexDigits(text, pos + 5, 1, (d0 * 16 + d1) * 16 + d2);
  }

  /** What the decoder makes of a hexadecimal escape that is no high surrogate. */
  lemma DecodesHex(text: string, pos: nat, end: nat, digits: string)
    requires Occurs(text, pos, "\\u" + digits) && LegalUnit(Hex(digits)) && pos + 6 <= end <= |text|
    requires !HighSurrogate(HexCode(digits))
    ensures DecodeChars(text, pos, end) == Prepend(Utf8(HexCode(digits)), DecodeChars(text, pos + 6, end))
  {
    HexUnit(text, pos, digits);
    HexDecodes(text, pos, digits);
    hide HexDigits, HexCode, Utf8, Nibble, IsHexDigit;
    assert CodePoint(text, pos + 2, end) == Unicode(HexCode(digits), pos + 6);
  }

  lemma DecodesPair(text: string, pos: nat, end: nat, first: string, second: string)
    requires Occurs(text, pos, "\\u" + first) && LegalUnit(Hex(first)) && HighSurrogate(HexCode(first))
    requires Occurs(text, pos + 6, "\\u" + second) && LegalUnit(Hex(second)) && pos + 12 <= end <= |text|
    ensures DecodeChars(text, pos, end) ==
            Prepend(Utf8(0x10000 + (HexCode(first) - 0xD800) * 0x400 + HexCode(second) % 0x400), DecodeChars(text, pos + 12, end))
  {
    HexUnit(text, pos, first);
    hide HexCode, Utf8, IsHexDigit, Occurs, CodePoint, LegalUnit;
    PairCode(text, pos, end, first, second);
  }

  lemma EscapeDecodes(text: string, pos: nat, end: nat, digits: string)
    requires Occurs(text, pos, "\\u" + digits) && LegalUnit(Hex(digits)) && pos + 6 <= end <= |text|
    ensures UnicodeEscape(text, pos + 2, end) == Unicode(HexCode(digits), pos + 6)
  {
    hide HexDigits, HexCode, Occurs, LegalUnit;
    HexDecodes(text, pos, digits);
  }

  lemma HighHalf(code: nat)
    requires HighSurrogate(code)
    ensures code % 0x400 == code - 0xD800
  {
  }

  lemma PairCode(text: string, pos: nat, end: nat, first: string, second: string)
    requires Occurs(text, pos, "\\u" + first) && LegalUnit(Hex(first)) && HighSurrogate(HexCode(first))
    requires Occurs(text, pos + 6, "\\u" + second) && LegalUnit(Hex(second)) && pos + 12 <= end <= |text|
    ensures CodePoint(text, pos + 2, end) == Unicode(0x10000 + (HexCode(first) - 0xD800) * 0x400 + HexCode(second) % 0x400, pos + 12)
  {
    hide UnicodeEscape, HexCode, Occurs, LegalUnit;
    HexStart(text, pos + 6, second);
    EscapeDecodes(text, pos, end, first);
    EscapeDecodes(text, pos + 6, end, second);
    HighHalf(HexCode(first));
  }

  lemma HexStart(text: string, pos: nat, digits: string)
    requires Occurs(text, pos, "\\u" + digits) && LegalUnit(Hex(digits))
    ensures pos + 1 < |text| && text[pos] == '\\' && text[pos + 1] == 'u'
  {
    HexUnit(text, pos, digits);
  }

  /** A high surrogate with no escape behind it. */
  lemma RejectsHalf(text: string, pos: nat, end: nat, digits: string)
    requires Occurs(text, pos, "\\u" + digits) && LegalUnit(Hex(digits)) && pos + 6 <= end <= |text|
    requires HighSurrogate(HexCode(digits))
    requires end - (pos + 6) < 6 || text[pos + 6] != '\\' || text[pos + 7] != 'u'
    ensures DecodeChars(text, pos, end).Failed?
  {
    HexUnit(text, pos, digits);
    HexDecodes(text, pos, digits);
    hide HexDigits, HexCode, Nibble, IsHexDigit;
    assert CodePoint(text, pos + 2, end).BadUnicode?;
  }

  /** The unit behind a high surrogate, if it is no hexadecimal escape, is no backslash and u. */
  lemma NoSecondHalf(text: string, pos: nat, u: Unit)
    requires Occurs(text, pos, UnitText(u)) && LegalUnit(u) && !u.Hex? && pos + 1 < |text|
    ensures text[pos] != '\\' || text[pos + 1] != 'u'
  {
    OccursAt(text, pos, UnitText(u), 0);
    if u.Short? { OccursAt(text, pos, UnitText(u), 1); }
  }

  ghost predicate DecodesTo(d: Decoded, s: Option<string>) {
    if s.Some? then d == Decoded(s.value) else d.Failed?
  }

  lemma PlainUnit(text: string, pos: nat, end: nat, units: seq<Unit>)
    requires LegalUnits(units) && units != [] && !units[0].Hex? && Occurs(text, pos, UnitText(units[0]))
    requires pos + |UnitText(units[0])| <= end <= |text|
    requires DecodesTo(DecodeChars(text, pos + |UnitText(units[0])|, end), Bytes(units[1..]))
    ensures DecodesTo(DecodeChars(text, pos, end), Bytes(units))
  {
    hide DecodeChars;
    var u := units[0];
    assert LegalUnit(u);
    DecodesPlain(text, pos, end, u);
  }

  lemma DecodesPlain(text: string, pos: nat, end: nat, u: Unit)
    requires LegalUnit(u) && !u.Hex? && Occurs(text, pos, UnitText(u)) && pos + |UnitText(u)| <= end <= |text|
    ensures var head := if u.Raw? then u.c else ShortMeaning(u.c);
            DecodeChars(text, pos, end) == Prepend([head], DecodeChars(text, pos + |UnitText(u)|, end))
  {
    if u.Short? { ShortIsSimple(u.c); }
    hide CodePoint;
    OccursAt(text, pos, UnitText(u), 0);
    if u.Short? { OccursAt(text, pos, UnitText(u), 1); }
  }

  lemma HexUnits(text: string, pos: nat, end: nat, units: seq<Unit>)
    requires LegalUnits(units) && units != [] && units[0].Hex? && Occurs(text, pos, UnitText(units[0])) && pos + 6 <= end <= |text|
    requires !HighSurrogate(HexCode(units[0].digits)) ==> DecodesTo(DecodeChars(text, pos + 6, end), Bytes(units[1..]))
    requires |units| >= 2 && pos + 6 < end ==> Occurs(text, pos + 6, UnitText(units[1]))
    requires |units| >= 2 && units[1].Hex? ==>
               pos + 12 <= end && DecodesTo(DecodeChars(text, pos + 12, end), Bytes(units[2..]))
    requires |units| == 1 ==> pos + 6 == end
    ensures DecodesTo(DecodeChars(text, pos, end), Bytes(units))
  {
    hide DecodeChars, Occurs, Utf8, HexCode, Nibble, IsHexDigit;
    var digits := units[0].digits;
    assert LegalUnit(units[0]);
    if !HighSurrogate(HexCode(digits)) {
      DecodesHex(text, pos, end, digits);
    } else if |units| >= 2 && units[1].Hex? {
      assert LegalUnit(units[1]);
      DecodesPair(text, pos, end, digits, units[1].digits);
    } else {
      if |units| >= 2 && end - (pos + 6) >= 6 {
        assert LegalUnit(units[1]);
        NoSecondHalf(text, pos + 6, units[1]);
      }
      RejectsHalf(text, pos, end, digits);
    }
  }

  lemma {:induction false} DecodesUnits(text: string, pos: nat, units: seq<Unit>)
    requires LegalUnits(units) && Occurs(text, pos, UnitsText(units) + "\"") && pos + |UnitsText(units)| + 1 == |text|
    ensures DecodesTo(DecodeChars(text, pos, |text| - 1), Bytes(units))
    decreases |units|
  {
    hide UnitsText, Utf8, HexCode, Occurs, HighSurrogate, LegalUnit, Unescape;
    var end := |text| - 1;
    if units == [] {
      NoUnits();
    } else {
      hide DecodeChars, Bytes, DecodesTo;
      UnitsParts(text, pos, units, "\"");
      UnitFits(units[0]);
      var next := pos + |UnitText(units[0])|;
      DecodesUnits(text, next, units[1..]);
      if !units[0].Hex? {
        PlainUnit(text, pos, end, units);
      } else if |units| >= 2 {
        UnitsParts(text, next, units[1..], "\"");
        UnitFits(units[1]);
        assert units[1..][1..] == units[2..];
        if units[1].Hex? { DecodesUnits(text, pos + 12, units[2..]); }
        HexUnits(text, pos, end, units);
      } else {
        NoUnits();
        HexUnits(text, pos, end, units);
      }
    }
  }

  lemma NoUnits()
    ensures UnitsText([]) == ""
  {
  }

  lemma UnitFits(u: Unit)
    ensures LegalUnit(u) ==> |UnitText(u)| == if u.Raw? then 1 else if u.Short? then 2 else 6
  {
  }

  lemma StringDecodes(units: seq<Unit>)
    requires LegalUnits(units)
    ensures |StringText(units)| >= 2 && DecodesTo(DecodeString(StringText(units)), Bytes(units))
  {
    var text := StringText(units);
    assert Occurs(text, 1, UnitsText(units) + "\"") by { assert text[1..|text|] == UnitsText(units) + "\""; }
    DecodesUnits(text, 1, units);
  }

  /** The two halves of a code point beyond the first plane stand for that code point. */
  lemma PairsAreCodePoints(cp: nat, high: string, low: string)
    requires 0x10000 <= cp <= 0x10FFFF && LegalUnit(Hex(high)) && LegalUnit(Hex(low))
    requires HexCode(high) == 0xD800 + (cp - 0x10000) / 0x400 && HexCode(low) == 0xDC00 + (cp - 0x10000) % 0x400
    ensures Bytes([Hex(high), Hex(low)]) == Some(Utf8(cp))
  {
    var units := [Hex(high), Hex(low)];
    hide HexCode, Utf8, IsHexDigit;
    assert units[2..] == [];
    assert Utf8(cp) + "" == Utf8(cp);
  }

  // ---------------------------------------------------------------- what stands for a comma

  lemma {:induction false} ScanUnended(doc: string, pos: nat, s: string)
    requires Unended(s) && Occurs(doc, pos, s + "\"")
    ensures pos + |s| + 1 <= |doc| && StringEnd(doc, pos) == Scan(true, pos + |s| + 1)
    decreases s
  {
    var e := s + "\"";
    OccursFits(doc, pos, e);
    OccursAt(doc, pos, e, 0);
    if s != "" {
      var k := if s[0] == '\\' then 2 else 1;
      assert e == e[..k] + (s[k..] + "\"");
      OccursParts(doc, pos, e[..k], s[k..] + "\"");
      ScanUnended(doc, pos + k, s[k..]);
      hide StringEnd;
      if k == 2 { ScanPair(doc, pos); } else { ScanPlain(doc, pos); }
    }
  }

  lemma SlashToken(doc: string, pos: nat, c: char)
    requires Occurs(doc, pos, ['/', c]) && c != '*' && c != '/'
    ensures pos + 2 <= |doc| && ReadToken(doc, pos) == Token(Error, pos, pos + 2)
  {
    OccursAt(doc, pos, ['/', c], 0);
    OccursAt(doc, pos, ['/', c], 1);
  }

  lemma SignToken(doc: string, pos: nat, c: char)
    requires Occurs(doc, pos, [c]) && LegalMark(Sign(c)) && Ends(doc, pos + 1)
    ensures pos + 1 <= |doc| && ReadToken(doc, pos).start == pos && ReadToken(doc, pos).end == pos + 1
    ensures ReadToken(doc, pos).kind != ObjectEnd && ReadToken(doc, pos).kind != Comment
  {
    hide NumberEnd, StringEnd, CommentEnd;
    OccursAt(doc, pos, [c], 0);
    EndsIs(doc, pos + 1);
    SkipNothing(doc, pos);
    if c == 't' || c == 'f' || c == 'n' {
      NoLiteral(doc, pos + 1, "rue");
      NoLiteral(doc, pos + 1, "alse");
      NoLiteral(doc, pos + 1, "ull");
    }
    hide LiteralEnd;
  }

  lemma NoLiteral(doc: string, pos: nat, pattern: string)
    requires pos < |doc| && pattern != "" && doc[pos] != pattern[0]
    ensures LiteralEnd(doc, pos, pattern) == Scan(false, pos)
  {
    if pos + |pattern| <= |doc| { assert doc[pos..pos + |pattern|][0] != pattern[0]; }
  }

  lemma QuoteToken(doc: string, pos: nat, s: string)
    requires Occurs(doc, pos, "\"" + (s + "\"")) && Unended(s)
    ensures pos + |s| + 2 <= |doc| && ReadToken(doc, pos) == Token(String, pos, pos + |s| + 2)
  {
    hide StringEnd, Unended, Occurs, ReadToken;
    OccursParts(doc, pos, "\"", s + "\"");
    QuoteAt(doc, pos);
    ScanUnended(doc, pos + 1, s);
    StringStarts(doc, pos);
  }

  /** Whatever stands for a comma is one token, and neither a closing brace nor a comment. */
  lemma MarkToken(doc: string, pos: nat, m: Mark)
    requires LegalMark(m) && Occurs(doc, pos, MarkText(m)) && Ends(doc, pos + |MarkText(m)|)
    ensures var t := ReadToken(doc, pos);
            && pos < t.end == pos + |MarkText(m)| <= |doc| && t.kind != ObjectEnd && t.kind != Comment && (m == Comma ==> t.kind == ArraySeparator)
  {
    hide ReadToken, Ends, NumeralText, LegalNumeral, Occurs, Unended;
    match m
    case Comma => PunctuationAt(doc, pos, ArraySeparator, ',');
    case Sign(c) => SignToken(doc, pos, c);
    case Slash(c) => SlashToken(doc, pos, c);
    case Word(w) => LiteralAt(doc, pos, if w == "null" then Null else if w == "true" then True else False, w);
    case Figure(n) =>
      NumeralToken(doc, pos, n);
      NumeralParts(n);
    case Quote(s) => QuoteToken(doc, pos, s);
  }

  lemma MarkFollows(m: Mark, rest: string)
    requires LegalMark(m)
    ensures Follows(MarkText(m) + rest)
  {
    hide Unended, IsFraction, IsExponent;
  }

  lemma LiteralAt(doc: string, pos: nat, kind: TokenType, text: string)
    requires Occurs(doc, pos, text) && IsLiteral(kind, text)
    ensures pos + |text| <= |doc| && ReadToken(doc, pos) == Token(kind, pos, pos + |text|)
  {
    LiteralToken(doc, pos, kind, text);
    OccursAt(doc, pos, text, 0);
    SkipNothing(doc, pos);
    hide LiteralEnd, SkipSpaces;
  }

  lemma SkipNothing(doc: string, pos: nat)
    requires pos < |doc| && !IsSpace(doc[pos])
    ensures SkipSpaces(doc, pos) == pos && ReadToken(doc, pos) == TokenAt(doc, pos)
  {
    hide TokenAt;
  }

  // ---------------------------------------------------------------- reading a document

  /** The outcome of reading a tree: its meaning if it has one and the stack holds it, else no success. */
  ghost predicate ReadsAs(r: Outcome, meaning: Option<Payload>, fits: bool, end: nat) {
    if fits && meaning.Some? then r.Ret? && r.ok && r.pos == end && Strip(r.node.payload) == meaning.value
    else r.Ret? ==> !r.ok
  }

  ghost predicate ReadsItems(r: Outcome, before: Entries, items: Option<Entries>, fits: bool, end: nat) {
    if fits && items.Some? then
      r.Ret? && r.ok && r.pos == end && r.node.payload.ArrayValue?
      && StripEntries(r.node.payload.items) == Append(StripEntries(before), items.value)
    else r.Ret? ==> !r.ok
  }

  ghost predicate ReadsNamed(r: Outcome, members: Option<Entries>, fits: bool, end: nat) {
    if fits && members.Some? then
      r.Ret? && r.ok && r.pos == end && r.node.payload.ObjectValue? && StripEntries(r.node.payload.members) == members.value
    else r.Ret? ==> !r.ok
  }

  lemma ScalarReads(toDouble: ToDouble, doc: string, pos: nat, t: Tree, depth: nat, init: Node)
    requires Legal(t) && !t.ArrayTree? && !t.ObjectTree? && Occurs(doc, pos, TreeText(t)) && Ends(doc, pos + |TreeText(t)|)
    ensures pos + |TreeText(t)| <= |doc|
    ensures ReadsAs(ParseValue(toDouble, doc, pos, depth, init), Meaning(toDouble, t), depth < STACK_LIMIT, pos + |TreeText(t)|)
  {
    hide ReadToken, ReadScalar, ParseValue, NumeralMeaning, DecodeString, NumeralText, StringText, Ends, LegalUnits, Bytes, White, LegalNumeral;
    SpacedToken(doc, pos, t.ws, BodyText(t));
    ScalarToken(doc, pos + |t.ws|, t);
    ParseValueCases(toDouble, doc, pos, depth, init);
    ScalarDecodes(toDouble, doc, ReadToken(doc, pos), t, init);
  }

  function KindOf(t: Tree): TokenType {
    match t
    case NullTree(_) => Null
    case BoolTree(_, b) => if b then True else False
    case NumberTree(_, _) => Number
    case StringTree(_, _) => String
    case ArrayTree(_, _, _) => ArrayBegin
    case ObjectTree(_, _, _) => ObjectBegin
  }

  lemma ScalarToken(doc: string, pos: nat, t: Tree)
    requires Legal(t) && !t.ArrayTree? && !t.ObjectTree? && Occurs(doc, pos, BodyText(t)) && Ends(doc, pos + |BodyText(t)|)
    ensures pos + |BodyText(t)| <= |doc| && ReadToken(doc, pos) == Token(KindOf(t), pos, pos + |BodyText(t)|)
    ensures t.StringTree? ==> |BodyText(t)| >= 2
  {
    hide ReadToken, NumeralText, StringText, Ends, Occurs, LegalUnits, LegalNumeral;
    match t
    case NullTree(_) => LiteralAt(doc, pos, Null, "null");
    case BoolTree(_, b) => LiteralAt(doc, pos, if b then True else False, if b then "true" else "false");
    case NumberTree(_, n) => NumeralToken(doc, pos, n);
    case StringTree(_, units) =>
      StringTokenAt(doc, pos, units);
      StringDecodes(units);
  }

  lemma ScalarDecodes(toDouble: ToDouble, doc: string, token: Token, t: Tree, init: Node)
    requires Legal(t) && !t.ArrayTree? && !t.ObjectTree? && token.start <= token.end <= |doc|
    requires token.kind == KindOf(t) && Text(doc, token) == BodyText(t) && (t.StringTree? ==> token.end - token.start >= 2)
    ensures ReadsAs(ReadScalar(toDouble, doc, token, init), Meaning(toDouble, t), true, token.end)
  {
    hide Text, DecodeNumber, NumeralMeaning, White, DecodeString, NumeralText, StringText, LegalUnits, Bytes;
    if t.StringTree? { StringDecodes(t.units); }
    if t.NumberTree? {
      NumeralDecodes(toDouble, t.numeral);
      NumberIsScalar(toDouble, NumeralText(t.numeral));
    }
  }

  lemma NumberIsScalar(toDouble: ToDouble, text: string)
    ensures var p := DecodeNumber(toDouble, text); p.Some? ==> Strip(p.value) == p.value
  {
  }

  lemma BodyStarts(t: Tree)
    requires Legal(t)
    ensures BodyText(t) != "" && !IsSpace(BodyText(t)[0]) && BodyText(t)[0] != ']'
  {
    hide ElementsText, MembersText, UnitsText, IsFraction, IsExponent, White;
  }

  // ---------------------------------------------------------------- arrays

  /** A gap behind a value, then a comma or a bracket, then the rest. */
  lemma GapSeparated(doc: string, pos: nat, g: Gap, kind: TokenType, c: char, rest: string)
    requires LegalGap(g) && Occurs(doc, pos, GapText(g) + ([c] + rest)) && IsPunctuation(kind, c) && (c == ',' || c == ']' || c == '}')
    ensures var next, first := pos + |GapText(g)| + 1, ReadToken(doc, pos);
            && next <= |doc| && Occurs(doc, next, rest) && Ends(doc, pos)
            && SkipComments(doc, first) == Token(kind, next - 1, next) && first.kind == (if g.remarks == [] then kind else Comment)
  {
    hide Occurs, ReadToken, SkipComments, GapText, LegalGap, Ends;
    GapPunctuation(doc, pos, g, kind, c, rest);
    GapEnds(doc, pos, g, [c] + rest);
  }

  lemma GapClosed(doc: string, pos: nat, g: Gap, kind: TokenType, c: char)
    requires LegalGap(g) && Occurs(doc, pos, GapText(g) + [c]) && IsPunctuation(kind, c) && (c == ']' || c == '}')
    ensures var next, first := pos + |GapText(g)| + 1, ReadToken(doc, pos);
            && next <= |doc| && Ends(doc, pos)
            && SkipComments(doc, first) == Token(kind, next - 1, next) && first.kind == (if g.remarks == [] then kind else Comment)
  {
    hide Occurs, ReadToken, SkipComments, GapText, LegalGap, Ends;
    assert [c] + "" == [c];
    GapSeparated(doc, pos, g, kind, c, "");
  }

  /** The first element, and the comma or bracket behind it. */
  lemma ElementsParts(doc: string, pos: nat, es: Elements, close: Gap)
    requires es.Element? && LegalElements(es) && LegalGap(close) && Occurs(doc, pos, ElementsText(es, close))
    ensures var at, whole := pos + |TreeText(es.value)|, pos + |ElementsText(es, close)|;
            && Occurs(doc, pos, TreeText(es.value)) && at <= |doc| && Ends(doc, at) && whole <= |doc|
            && var t := SkipComments(doc, ReadToken(doc, at));
               if es.rest.NoElements? then t.kind == ArrayEnd && t.end == whole
               else
                 && t.kind == ArraySeparator && t.end <= |doc|
                 && Occurs(doc, t.end, ElementsText(es.rest, close))
                 && t.end + |ElementsText(es.rest, close)| == whole
  {
    hide Occurs, Ends, ReadToken, SkipComments, LegalGap, TreeText, Legal, GapText;
    var at := pos + |TreeText(es.value)|;
    OccursFits(doc, pos, ElementsText(es, close));
    OccursParts(doc, pos, TreeText(es.value), ElementsTail(es, close));
    if es.rest.NoElements? {
      GapClosed(doc, at, close, ArrayEnd, ']');
    } else {
      GapSeparated(doc, at, es.comma, ArraySeparator, ',', ElementsText(es.rest, close));
    }
  }

  lemma ElementsSkip(toDouble: ToDouble, doc: string, pos: nat, depth: nat, node: Node, i: nat)
    requires pos <= |doc| && node.payload.ArrayValue?
    ensures ParseElements(toDouble, doc, SkipSpaces(doc, pos), depth, node, i) == ParseElements(toDouble, doc, pos, depth, node, i)
  {
    ValueSkip(toDouble, doc, pos, depth, Child(node.payload.items, Index(i)));
    hide ParseValue, SkipSpaces, SkipComments, ReadToken, Child, Put, Failure, Propagate;
  }

  lemma ItemsForms(toDouble: ToDouble, es: Elements, i: nat)
    requires LegalElements(es)
    ensures es.NoElements? ==> Items(toDouble, es, i) == Some(Nil) && ElementsNesting(es) == 0
    ensures es.Element? ==>
              var p, rest := Meaning(toDouble, es.value), Items(toDouble, es.rest, i + 1);
              && Items(toDouble, es, i) == (if p.Some? && rest.Some? then Some(Cons(Index(i), Node(p.value, 0, 0), rest.value)) else None)
              && ElementsNesting(es) == Max(Nesting(es.value), ElementsNesting(es.rest))
  {
    hide Meaning, Nesting, White, LegalGap;
  }

  /** A tree by its constructor. */
  lemma TreeForms(toDouble: ToDouble, t: Tree)
    requires Legal(t)
    ensures White(t.ws)
    ensures t.ArrayTree? ==>
              && TreeText(t) == t.ws + ("[" + ElementsText(t.elements, t.close))
              && LegalElements(t.elements) && LegalGap(t.close) && Nesting(t) == 1 + ElementsNesting(t.elements)
              && (t.elements.NoElements? ==> t.close.remarks == [])
              && var items := Items(toDouble, t.elements, 0);
                 Meaning(toDouble, t) == (if items.Some? then Some(ArrayValue(items.value)) else None)
    ensures t.ObjectTree? ==>
              && TreeText(t) == t.ws + ("{" + MembersText(t.members, t.close))
              && LegalMembers(t.members) && LegalGap(t.close) && Nesting(t) == 1 + MembersNesting(t.members)
              && var members := Named(toDouble, Nil, t.members);
                 Meaning(toDouble, t) == (if members.Some? then Some(ObjectValue(members.value)) else None)
    ensures !t.ArrayTree? && !t.ObjectTree? ==> Nesting(t) == 1
  {
    hide ElementsText, MembersText, Items, Named, ElementsNesting, MembersNesting, LegalElements, LegalMembers, White, LegalGap;
  }

  /** The outcome of reading a tree wherever it stands: its meaning, if it has one and the stack holds it, else no success. */
  lemma {:induction false} ReadsTree(toDouble: ToDouble, doc: string, pos: nat, t: Tree, depth: nat, init: Node)
    requires Legal(t) && Occurs(doc, pos, TreeText(t)) && (t.ArrayTree? || t.ObjectTree? || Ends(doc, pos + |TreeText(t)|))
    ensures pos + |TreeText(t)| <= |doc|
    ensures ReadsAs(ParseValue(toDouble, doc, pos, depth, init), Meaning(toDouble, t), depth + Nesting(t) <= STACK_LIMIT, pos + |TreeText(t)|)
    decreases t
  {
    hide ReadToken, ReadScalar, ParseValue, ParseMembers, ParseArray, Occurs, Ends, White, LegalGap, ElementsText, MembersText, Items, Named,
         Meaning, Nesting, ElementsNesting, MembersNesting, Legal, LegalElements, LegalMembers, TreeText;
    OccursFits(doc, pos, TreeText(t));
    TreeForms(toDouble, t);
    if t.ArrayTree? || t.ObjectTree? {
      var open := pos + |t.ws|;
      ParseValueCases(toDouble, doc, pos, depth, init);
      if t.ArrayTree? {
        Separated(doc, pos, t.ws, ArrayBegin, '[', ElementsText(t.elements, t.close));
        if depth < STACK_LIMIT {
          ReadsArray(toDouble, doc, open + 1, t.elements, t.close, depth + 1, Node(ArrayValue(Nil), open, init.limit));
        }
      } else {
        Separated(doc, pos, t.ws, ObjectBegin, '{', MembersText(t.members, t.close));
        if depth < STACK_LIMIT {
          ReadsMembers(toDouble, doc, open + 1, t.members, t.close, depth + 1, Node(ObjectValue(Nil), open, init.limit), "");
        }
      }
    } else {
      ScalarReads(toDouble, doc, pos, t, depth, init);
    }
  }

  lemma {:induction false} ReadsArray(toDouble: ToDouble, doc: string, pos: nat, es: Elements, close: Gap, depth: nat, node: Node)
    requires LegalElements(es) && LegalGap(close) && (es.NoElements? ==> close.remarks == []) && Occurs(doc, pos, ElementsText(es, close))
    requires node.payload == ArrayValue(Nil) && depth <= STACK_LIMIT
    ensures pos + |ElementsText(es, close)| <= |doc|
    ensures ReadsItems(ParseArray(toDouble, doc, pos, depth, node), Nil, Items(toDouble, es, 0),
                       depth + ElementsNesting(es) <= STACK_LIMIT, pos + |ElementsText(es, close)|)
    decreases es, 1
  {
    hide *;
    OccursFits(doc, pos, ElementsText(es, close));
    ItemsForms(toDouble, es, 0);
    ParseArrayIs(toDouble, doc, pos, depth, node);
    if es.NoElements? {
      EmptyArray(doc, pos, es, close);
      NothingRead(node, pos + |ElementsText(es, close)|);
    } else {
      FirstElement(doc, pos, es, close);
      ElementsSkip(toDouble, doc, pos, depth, node, 0);
      NothingBelow(node);
      ReadsElements(toDouble, doc, pos, es, close, depth, node, 0);
    }
  }

  lemma ParseArrayIs(toDouble: ToDouble, doc: string, pos: nat, depth: nat, node: Node)
    requires pos <= |doc| && node.payload.ArrayValue?
    ensures var start := SkipSpaces(doc, pos);
            ParseArray(toDouble, doc, pos, depth, node) ==
            if Peek(doc, start) == ']' then Ret(true, node, ReadToken(doc, start).end, [])
            else ParseElements(toDouble, doc, start, depth, node, 0)
  {
    hide SkipSpaces, ReadToken, ParseElements, Peek;
  }

  lemma EmptyArray(doc: string, pos: nat, es: Elements, close: Gap)
    requires es.NoElements? && LegalGap(close) && close.remarks == [] && Occurs(doc, pos, ElementsText(es, close))
    ensures pos <= |doc| && Peek(doc, SkipSpaces(doc, pos)) == ']'
    ensures ReadToken(doc, SkipSpaces(doc, pos)).end == pos + |ElementsText(es, close)|
  {
    hide ReadToken, Occurs, White, SkipSpaces;
    assert GapText(close) == close.ws;
    SpacedToken(doc, pos, close.ws, "]");
    StartsWith(doc, pos + |close.ws|, "]");
    PunctuationAt(doc, pos + |close.ws|, ArrayEnd, ']');
  }

  lemma FirstElement(doc: string, pos: nat, es: Elements, close: Gap)
    requires es.Element? && LegalElements(es) && LegalGap(close) && Occurs(doc, pos, ElementsText(es, close))
    ensures pos <= |doc| && Peek(doc, SkipSpaces(doc, pos)) != ']'
  {
    hide ReadToken, SkipComments, Occurs, Ends, White, LegalGap, SkipSpaces, ElementsText, BodyText;
    ElementsParts(doc, pos, es, close);
    BodyStarts(es.value);
    SpacedToken(doc, pos, es.value.ws, BodyText(es.value));
    StartsWith(doc, pos + |es.value.ws|, BodyText(es.value));
  }

  lemma NothingRead(node: Node, end: nat)
    requires node.payload == ArrayValue(Nil)
    ensures ReadsItems(Ret(true, node, end, []), Nil, Some(Nil), true, end)
  {
  }

  lemma NothingBelow(node: Node)
    requires node.payload == ArrayValue(Nil)
    ensures AllBelow(node.payload.items, Index(0))
  {
  }

  lemma StartsWith(doc: string, pos: nat, s: string)
    requires Occurs(doc, pos, s) && s != "" && !IsSpace(s[0])
    ensures SkipSpaces(doc, pos) == pos && Peek(doc, pos) == s[0]
  {
    OccursAt(doc, pos, s, 0);
    SkipNothing(doc, pos);
  }

  lemma {:induction false} ReadsElements(toDouble: ToDouble, doc: string, pos: nat, es: Elements, close: Gap, depth: nat, node: Node, i: nat)
    requires es.Element? && LegalElements(es) && LegalGap(close) && Occurs(doc, pos, ElementsText(es, close))
    requires node.payload.ArrayValue? && AllBelow(node.payload.items, Index(i))
    ensures pos + |ElementsText(es, close)| <= |doc|
    ensures ReadsItems(ParseElements(toDouble, doc, pos, depth, node, i), node.payload.items, Items(toDouble, es, i),
                       depth + ElementsNesting(es) <= STACK_LIMIT, pos + |ElementsText(es, close)|)
    decreases es, 0
  {
    hide ReadToken, SkipComments, ParseValue, ParseElements, Occurs, Ends, White, LegalGap, ElementsText, TreeText, Child, Put, Items,
         ElementsNesting, Meaning, Nesting, Strip, StripEntries, Append;
    var items, init := node.payload.items, Child(node.payload.items, Index(i));
    ElementsParts(doc, pos, es, close);
    ReadsTree(toDouble, doc, pos, es.value, depth, init);
    ParseElementsCases(toDouble, doc, pos, depth, node, i);
    ItemsForms(toDouble, es, i);
    ItemsForms(toDouble, es.rest, i + 1);
    var r := ParseValue(toDouble, doc, pos, depth, init);
    if r.Ret? && r.ok {
      var grown := Put(items, Index(i), r.node);
      AllBelowTrans(items, Index(i), Index(i + 1));
      PutBelow(items, Index(i), r.node, Index(i + 1));
      var rest := Items(toDouble, es.rest, i + 1);
      if rest.Some? { PutThen(items, Index(i), r.node, rest.value); }
      if es.rest.Element? {
        var next := SkipComments(doc, ReadToken(doc, r.pos)).end;
        ReadsElements(toDouble, doc, next, es.rest, close, depth, node.(payload := ArrayValue(grown)), i + 1);
      } else {
        AppendNil(StripEntries(grown));
      }
    }
  }

  // ---------------------------------------------------------------- objects

  /** The first member, token by token. */
  lemma MembersParts(doc: string, pos: nat, ms: Members, close: Gap)
    requires ms.Member? && LegalMembers(ms) && Occurs(doc, pos, MembersText(ms, close))
    ensures var name := pos + |GapText(ms.gap)|; var named := name + |StringText(ms.name)|;
            var value := named + |ms.colon| + 1; var at := value + |TreeText(ms.value)|;
            && at <= |doc| && pos + |MembersText(ms, close)| <= |doc| && |StringText(ms.name)| >= 2
            && SkipComments(doc, ReadToken(doc, pos)) == Token(String, name, named) && doc[name..named] == StringText(ms.name)
            && ReadToken(doc, named) == Token(MemberSeparator, value - 1, value)
            && Occurs(doc, value, TreeText(ms.value)) && Occurs(doc, at, NextText(ms.next, close))
            && at + |NextText(ms.next, close)| == pos + |MembersText(ms, close)|
  {
    hide *;
    var tail := TreeText(ms.value) + NextText(ms.next, close);
    MembersTextIs(ms, close);
    OccursFits(doc, pos, MembersText(ms, close));
    NameToken(doc, pos, ms.gap, ms.name, ms.colon + (":" + tail));
    var named := pos + |GapText(ms.gap)| + |StringText(ms.name)|;
    Separated(doc, named, ms.colon, MemberSeparator, ':', tail) by { ColonMark(); }
    OccursParts(doc, named + |ms.colon| + 1, TreeText(ms.value), NextText(ms.next, close));
    OccursFits(doc, named + |ms.colon| + 1, TreeText(ms.value));
  }

  lemma ColonMark()
    ensures IsPunctuation(MemberSeparator, ':')
  {
  }

  lemma MembersTextIs(ms: Members, close: Gap)
    requires ms.Member? && LegalMembers(ms)
    ensures LegalUnits(ms.name) && LegalGap(ms.gap) && White(ms.colon)
    ensures var tail := TreeText(ms.value) + NextText(ms.next, close);
            && MembersText(ms, close) == GapText(ms.gap) + (StringText(ms.name) + (ms.colon + (":" + tail)))
            && |MembersText(ms, close)| == |GapText(ms.gap)| + |StringText(ms.name)| + |ms.colon| + 1 + |tail|
            && |tail| == |TreeText(ms.value)| + |NextText(ms.next, close)|
  {
    hide TreeText, NextText, StringText, GapText, Legal;
  }

  lemma NameToken(doc: string, pos: nat, g: Gap, name: seq<Unit>, rest: string)
    requires Occurs(doc, pos, GapText(g) + (StringText(name) + rest)) && LegalGap(g) && LegalUnits(name)
    ensures var at := pos + |GapText(g)|; var end := at + |StringText(name)|;
            && end <= |doc| && SkipComments(doc, ReadToken(doc, pos)) == Token(String, at, end) && doc[at..end] == StringText(name)
            && |StringText(name)| >= 2 && Occurs(doc, end, rest)
  {
    hide *;
    var at := pos + |GapText(g)|;
    OccursParts(doc, pos, GapText(g), StringText(name) + rest);
    OccursParts(doc, at, StringText(name), rest);
    StringTokenAt(doc, at, name);
    StringDecodes(name);
    StringFollows(name, rest);
    GapRead(doc, pos, g, StringText(name) + rest);
    OccursText(doc, at, StringText(name));
  }

  lemma StringFollows(name: seq<Unit>, rest: string)
    ensures Follows(StringText(name) + rest)
  {
    hide UnitsText;
  }

  lemma OccursText(doc: string, pos: nat, s: string)
    requires Occurs(doc, pos, s)
    ensures pos + |s| <= |doc| && doc[pos..pos + |s|] == s
  {
  }

  /** Members, or the closing brace, start with something that ends a number. */
  lemma MembersEnds(doc: string, pos: nat, ms: Members, close: Gap)
    requires LegalMembers(ms) && LegalGap(close) && Occurs(doc, pos, MembersText(ms, close))
    ensures Ends(doc, pos)
  {
    hide Occurs, Ends, GapText, LegalGap, LegalUnits, White, Legal, LegalNext, TreeText, NextText, UnitsText;
    if ms.NoMembers? {
      GapEnds(doc, pos, close, "}");
    } else {
      var tail := StringText(ms.name) + (ms.colon + (":" + (TreeText(ms.value) + NextText(ms.next, close))));
      GapEnds(doc, pos, ms.gap, tail);
    }
  }

  lemma AfterMemberIs(doc: string, pos: nat, node: Node, name: string)
    requires pos <= |doc|
    ensures var first := ReadToken(doc, pos);
            var comma := SkipComments(doc, first);
            AfterMember(doc, pos, node, name) ==
            if first.kind != ObjectEnd && first.kind != ArraySeparator && first.kind != Comment then
              Stop(Failure(doc, MissingObjectSeparator, first, node, ObjectEnd))
            else if comma.kind == ObjectEnd then Stop(Ret(true, node, comma.end, []))
            else More(comma.end, node, name)
  {
    hide ReadToken, SkipComments;
  }

  /** What follows a member is taken for what the tree says. */
  lemma NextTurn(doc: string, at: nat, next: Next, close: Gap, node: Node, name: string)
    requires LegalNext(next) && LegalGap(close) && Occurs(doc, at, NextText(next, close))
    ensures at <= |doc| && Ends(doc, at) && at + |NextText(next, close)| <= |doc|
    ensures AfterMember(doc, at, node, name) ==
            if next.NoNext? then Stop(Ret(true, node, at + |NextText(next, close)|, []))
            else More(at + |GapText(next.gap)| + |MarkText(next.mark)|, node, name)
    ensures next.Another? ==>
              var end := at + |GapText(next.gap)| + |MarkText(next.mark)|;
              Occurs(doc, end, MembersText(next.rest, close)) && end + |MembersText(next.rest, close)| == at + |NextText(next, close)|
  {
    hide Occurs, Ends, ReadToken, SkipComments, GapText, LegalGap, MembersText, LegalMembers, LegalMark, MarkText, AfterMember, Failure;
    OccursFits(doc, at, NextText(next, close));
    AfterMemberIs(doc, at, node, name);
    if next.NoNext? {
      GapClosed(doc, at, close, ObjectEnd, '}');
    } else {
      var mark, text := at + |GapText(next.gap)|, MembersText(next.rest, close);
      var end := mark + |MarkText(next.mark)|;
      OccursParts(doc, at, GapText(next.gap), MarkText(next.mark) + text);
      OccursParts(doc, mark, MarkText(next.mark), text);
      MembersEnds(doc, end, next.rest, close);
      MarkToken(doc, mark, next.mark);
      MarkFollows(next.mark, text);
      GapRead(doc, at, next.gap, MarkText(next.mark) + text);
      MarkGapEnds(doc, at, next.gap, next.mark, text);
    }
  }

  lemma MarkGapEnds(doc: string, at: nat, g: Gap, m: Mark, text: string)
    requires LegalGap(g) && LegalMark(m) && (m != Comma ==> g.remarks != []) && Occurs(doc, at, GapText(g) + (MarkText(m) + text))
    ensures Ends(doc, at)
  {
    MarkFollows(m, text);
    if g.remarks != [] { RemarkNotEmpty(g.remarks); }
    hide *;
    GapEnds(doc, at, g, MarkText(m) + text) by { MarkGapStarts(g, m, text); }
  }

  lemma MarkGapStarts(g: Gap, m: Mark, text: string)
    requires LegalGap(g) && LegalMark(m) && (m != Comma ==> g.remarks != [])
    ensures MarkText(m) + text != ""
    ensures GapText(g) == "" ==> (MarkText(m) + text)[0] == ','
  {
    MarkFollows(m, text);
    if g.remarks != [] { RemarkNotEmpty(g.remarks); }
  }

  lemma RemarkNotEmpty(rs: seq<Remark>)
    requires rs != []
    ensures RemarksText(rs) != ""
  {
    assert |RemarkText(rs[0])| > 0;
  }

  lemma {:induction false} PutStrip(es: Entries, key: CZString, n: Node)
    ensures StripEntries(Put(es, key, n)) == Put(StripEntries(es), key, Node(Strip(n.payload), 0, 0))
    decreases es
  {
    if es.Cons? { PutStrip(es.rest, key, n); }
  }

  lemma NamedForms(toDouble: ToDouble, done: Entries, ms: Members)
    requires LegalMembers(ms)
    ensures ms.NoMembers? ==> Named(toDouble, done, ms) == Some(done) && MembersNesting(ms) == 0
    ensures ms.Member? ==>
              var name, p := Bytes(ms.name), Meaning(toDouble, ms.value);
              && LegalNext(ms.next)
              && Named(toDouble, done, ms) ==
                 (if name.Some? && p.Some? then Named(toDouble, Put(done, Name(name.value), Node(p.value, 0, 0)), Rest(ms)) else None)
              && MembersNesting(ms) == Max(Nesting(ms.value), MembersNesting(Rest(ms)))
  {
    hide Meaning, Nesting, Bytes, Put, LegalGap, LegalUnits, White, Legal, LegalMark;
  }

  /** What the loop makes of the first member: it goes on behind it if name and value read. */
  lemma MemberTurn(toDouble: ToDouble, doc: string, pos: nat, ms: Members, close: Gap, depth: nat, node: Node, name: string)
    requires ms.Member? && LegalMembers(ms) && LegalGap(close) && Occurs(doc, pos, MembersText(ms, close)) && node.payload.ObjectValue?
    ensures var value := pos + |GapText(ms.gap)| + |StringText(ms.name)| + |ms.colon| + 1;
            var at, end := value + |TreeText(ms.value)|, pos + |MembersText(ms, close)|;
            var all := ParseMembers(toDouble, doc, pos, depth, node, name);
            && at <= |doc| && end <= |doc| && Occurs(doc, value, TreeText(ms.value)) && Ends(doc, at)
            && (ms.next.Another? ==>
                  var after := at + |GapText(ms.next.gap)| + |MarkText(ms.next.mark)|;
                  && after <= |doc| && Occurs(doc, after, MembersText(ms.next.rest, close))
                  && after + |MembersText(ms.next.rest, close)| == end)
            && if Bytes(ms.name).None? then all.Ret? ==> !all.ok
               else
                 var key := Bytes(ms.name).value;
                 var r := ParseValue(toDouble, doc, value, depth, Child(node.payload.members, Name(key)));
                 if r.Ret? && r.ok && r.pos == at then
                   var grown := node.(payload := ObjectValue(Put(node.payload.members, Name(key), r.node)));
                   all == (if ms.next.NoNext? then Ret(true, grown, end, [])
                           else ParseMembers(toDouble, doc, at + |GapText(ms.next.gap)| + |MarkText(ms.next.mark)|, depth, grown, key))
                 else !(r.Ret? && r.ok) ==> all.Ret? ==> !all.ok
  {
    hide ReadToken, SkipComments, ParseValue, ParseMember, ParseMembers, Occurs, Ends, White, LegalGap, MembersText, NextText, TreeText,
         StringText, GapText, MarkText, Child, Put, Bytes, DecodeString, AfterMember, LegalMembers, LegalNext, Legal, LegalUnits;
    MembersParts(doc, pos, ms, close);
    MembersTextIs(ms, close);
    RestIs(ms);
    ParseMembersCases(toDouble, doc, pos, depth, node, name);
    var t := SkipComments(doc, ReadToken(doc, pos));
    var value := t.end + |ms.colon| + 1;
    var at := value + |TreeText(ms.value)|;
    StringDecodes(ms.name);
    SucceedingMember(toDouble, doc, t, depth, node);
    NextTurn(doc, at, ms.next, close, node, name);
    if Bytes(ms.name).Some? {
      var key := Bytes(ms.name).value;
      var r := ParseValue(toDouble, doc, value, depth, Child(node.payload.members, Name(key)));
      if r.Ret? && r.ok {
        NextTurn(doc, at, ms.next, close, node.(payload := ObjectValue(Put(node.payload.members, Name(key), r.node))), key);
      }
    }
  }

  lemma {:induction false} ReadsMembers(toDouble: ToDouble, doc: string, pos: nat, ms: Members, close: Gap, depth: nat, node: Node, name: string)
    requires LegalMembers(ms) && LegalGap(close) && Occurs(doc, pos, MembersText(ms, close)) && (ms.NoMembers? ==> name == "")
    requires node.payload.ObjectValue? && depth <= STACK_LIMIT
    ensures pos + |MembersText(ms, close)| <= |doc|
    ensures ReadsNamed(ParseMembers(toDouble, doc, pos, depth, node, name), Named(toDouble, StripEntries(node.payload.members), ms),
                       depth + MembersNesting(ms) <= STACK_LIMIT, pos + |MembersText(ms, close)|)
    decreases ms
  {
    hide ReadToken, SkipComments, ParseValue, ParseMembers, Occurs, Ends, LegalGap, MembersText, TreeText, StringText, GapText, MarkText,
         Child, Put, Named, MembersNesting, Meaning, Nesting, Bytes, Strip, StripEntries, Max, Rest, LegalMembers, LegalNext, Legal, LegalUnits;
    NamedForms(toDouble, StripEntries(node.payload.members), ms);
    if ms.NoMembers? {
      NoMembersRead(doc, pos, ms, close);
      ParseMembersCases(toDouble, doc, pos, depth, node, name);
    } else {
      RestIs(ms);
      MaxBounds(Nesting(ms.value), MembersNesting(Rest(ms)));
      MemberTurn(toDouble, doc, pos, ms, close, depth, node, name);
      if Bytes(ms.name).Some? {
        var value := pos + |GapText(ms.gap)| + |StringText(ms.name)| + |ms.colon| + 1;
        var key := Bytes(ms.name).value;
        var init := Child(node.payload.members, Name(key));
        ReadsTree(toDouble, doc, value, ms.value, depth, init);
        var r := ParseValue(toDouble, doc, value, depth, init);
        if r.Ret? && r.ok {
          var grown := node.(payload := ObjectValue(Put(node.payload.members, Name(key), r.node)));
          PutStrip(node.payload.members, Name(key), r.node);
          NamedForms(toDouble, StripEntries(grown.payload.members), Rest(ms));
          if ms.next.Another? {
            var after := r.pos + |GapText(ms.next.gap)| + |MarkText(ms.next.mark)|;
            ReadsMembers(toDouble, doc, after, ms.next.rest, close, depth, grown, key);
          }
        }
      }
    }
  }

  lemma NoMembersRead(doc: string, pos: nat, ms: Members, close: Gap)
    requires ms.NoMembers? && LegalGap(close) && Occurs(doc, pos, MembersText(ms, close))
    ensures var end := pos + |MembersText(ms, close)|;
            end <= |doc| && SkipComments(doc, ReadToken(doc, pos)) == Token(ObjectEnd, end - 1, end)
  {
    hide Occurs, ReadToken, SkipComments, GapText, LegalGap;
    GapClosed(doc, pos, close, ObjectEnd, '}');
  }

  lemma RestIs(ms: Members)
    requires ms.Member? && LegalMembers(ms)
    ensures LegalMembers(Rest(ms)) && Rest(ms) == (if ms.next.NoNext? then NoMembers else ms.next.rest)
    ensures LegalNext(ms.next) && Legal(ms.value) && LegalUnits(ms.name)
    ensures ms.next.Another? && ms.next.rest.NoMembers? ==> Bytes(ms.name) == Some("")
  {
    hide Bytes, LegalGap, LegalUnits, White, Legal, LegalMark;
    assert LegalNext(ms.next);
  }

  lemma MaxBounds(a: int, b: int)
    ensures Max(a, b) == (if a < b then b else a)
  {
  }

  // ---------------------------------------------------------------- whole documents

  lemma ScalarStarts(t: Tree)
    requires Legal(t) && !t.ArrayTree? && !t.ObjectTree?
    ensures BodyText(t) != "" && !IsSpace(BodyText(t)[0]) && BodyText(t)[0] != '{' && BodyText(t)[0] != '['
  {
    hide UnitsText, IsFraction, IsExponent, White;
  }

  lemma NoBracket(doc: string, pos: nat)
    requires pos < |doc| && doc[pos] != '{' && doc[pos] != '['
    ensures TokenAt(doc, pos).kind != ObjectBegin && TokenAt(doc, pos).kind != ArrayBegin
  {
    hide NumberEnd, StringEnd, CommentEnd, LiteralEnd;
  }

  lemma ScalarIsNoContainer(toDouble: ToDouble, doc: string, t: Token, init: Node)
    requires t.start <= t.end <= |doc| && (t.kind == String ==> t.end - t.start >= 2)
    ensures var r := ReadScalar(toDouble, doc, t, init); r.ok ==> !r.node.payload.ArrayValue? && !r.node.payload.ObjectValue?
  {
    hide FitsInteger, DigitsValue, DecodeString;
  }

  /** A scalar is no document, whatever follows it. */
  lemma ScalarRejected(toDouble: ToDouble, t: Tree, after: string, root: Node)
    requires Legal(t) && !t.ArrayTree? && !t.ObjectTree?
    ensures var result := Parse(toDouble, TreeText(t) + after, root); !(result.Parsed? && result.ok)
  {
    hide ParseValue, ReadScalar, ReadToken, White, BodyText;
    var doc := TreeText(t) + after;
    Assoc(t.ws, BodyText(t), after);
    ScalarFirst(doc, t, after);
    ParseValueCases(toDouble, doc, 0, 0, root);
    ScalarIsNoContainer(toDouble, doc, ReadToken(doc, 0), root);
  }

  lemma ScalarFirst(doc: string, t: Tree, after: string)
    requires Legal(t) && !t.ArrayTree? && !t.ObjectTree? && doc == t.ws + (BodyText(t) + after)
    ensures ReadToken(doc, 0).kind != ObjectBegin && ReadToken(doc, 0).kind != ArrayBegin
  {
    hide *;
    Whole(doc);
    TreeWhite(t);
    ScalarStarts(t);
    SpacedToken(doc, 0, t.ws, BodyText(t) + after);
    OccursAt(doc, |t.ws|, BodyText(t) + after, 0);
    OccursFits(doc, |t.ws|, BodyText(t) + after);
    SkipNothing(doc, |t.ws|);
    NoBracket(doc, |t.ws|);
  }

  lemma Whole(doc: string)
    ensures Occurs(doc, 0, doc)
  {
  }

  lemma TreeWhite(t: Tree)
    requires Legal(t)
    ensures White(t.ws)
  {
  }

  /**
   Of the text of a tree and whatever follows, the reader accepts it exactly if its root is an array or object, nested at
   most 1000 deep, and it has a meaning; and then it yields that meaning.
   */
  lemma ReadsDocument(toDouble: ToDouble, t: Tree, after: string, root: Node)
    requires Legal(t)
    ensures var result, meaning := Parse(toDouble, TreeText(t) + after, root), Meaning(toDouble, t);
            && (result.Parsed? && result.ok <==> (t.ArrayTree? || t.ObjectTree?) && Nesting(t) <= 1000 && meaning.Some?)
            && (result.Parsed? && result.ok ==> Strip(result.root.payload) == meaning.value)
  {
    hide ParseValue, TreeText, Legal, Meaning, Nesting, Occurs, Ends;
    if t.ArrayTree? || t.ObjectTree? {
      var doc := TreeText(t) + after;
      DocumentOccurs(TreeText(t), after);
      ReadsTree(toDouble, doc, 0, t, 0, root);
      MeaningKind(toDouble, t);
      SameKind(ParseValue(toDouble, doc, 0, 0, root));
    } else {
      ScalarRejected(toDouble, t, after, root);
    }
  }

  lemma DocumentOccurs(text: string, after: string)
    ensures Occurs(text + after, 0, text)
  {
    assert (text + after)[0..|text|] == text;
  }

  lemma SameKind(r: Outcome)
    ensures r.Ret? ==> Strip(r.node.payload).ArrayValue? == r.node.payload.ArrayValue?
    ensures r.Ret? ==> Strip(r.node.payload).ObjectValue? == r.node.payload.ObjectValue?
  {
  }

  lemma MeaningKind(toDouble: ToDouble, t: Tree)
    requires Legal(t)
    ensures var p := Meaning(toDouble, t); p.Some? ==> p.value.ArrayValue? == t.ArrayTree? && p.value.ObjectValue? == t.ObjectTree?
  {
    hide Items, Named, Bytes, NumeralText, DigitsValue;
  }

  // ---------------------------------------------------------------- the standard

  /** A whole part, fraction and exponent by section 6 of RFC 8259. */
  predicate StandardNumeral(n: Numeral) {
    && n.whole != "" && AllDigits(n.whole) && (n.whole[0] == '0' ==> |n.whole| == 1)
    && (n.fraction == "" || (|n.fraction| >= 2 && n.fraction[0] == '.' && AllDigits(n.fraction[1..])))
    && (n.exponent == "" ||
        (&& |n.exponent| >= 2 && (n.exponent[0] == 'e' || n.exponent[0] == 'E')
         && (if n.exponent[1] == '+' || n.exponent[1] == '-' then |n.exponent| >= 3 && AllDigits(n.exponent[2..])
             else AllDigits(n.exponent[1..]))))
  }

  /** The characters of a string by section 7: unescaped ones are no control characters. */
  predicate StandardUnits(units: seq<Unit>) {
    LegalUnits(units) && forall i :: 0 <= i < |units| && units[i].Raw? ==> units[i].c >= ' '
  }

  predicate StandardGap(g: Gap) { White(g.ws) && g.remarks == [] }

  /** The documents of RFC 8259: no comments, commas between members and nowhere else. */
  predicate Standard(t: Tree)
    decreases t
  {
    White(t.ws) &&
    match t
    case NumberTree(_, n) => StandardNumeral(n)
    case StringTree(_, units) => StandardUnits(units)
    case ArrayTree(_, es, close) => StandardGap(close) && StandardElements(es)
    case ObjectTree(_, ms, close) => StandardGap(close) && StandardMembers(ms)
    case _ => true
  }

  predicate StandardElements(es: Elements)
    decreases es
  {
    es.Element? ==> Standard(es.value) && StandardGap(es.comma) && StandardElements(es.rest)
  }

  predicate StandardMembers(ms: Members)
    decreases ms
  {
    ms.Member? ==>
      && StandardGap(ms.gap) && StandardUnits(ms.name) && White(ms.colon) && Standard(ms.value)
      && (ms.next.Another? ==> StandardGap(ms.next.gap) && ms.next.mark == Comma && ms.next.rest.Member? && StandardMembers(ms.next.rest))
  }

  /** Every document of the standard is one of those trees. */
  lemma {:induction false} StandardIsLegal(t: Tree)
    requires Standard(t)
    ensures Legal(t)
    decreases t
  {
    hide White, LegalUnits;
    match t
    case ArrayTree(_, es, _) => StandardElementsAreLegal(es);
    case ObjectTree(_, ms, _) => StandardMembersAreLegal(ms);
    case _ =>
  }

  lemma {:induction false} StandardElementsAreLegal(es: Elements)
    requires StandardElements(es)
    ensures LegalElements(es)
    decreases es
  {
    hide White;
    if es.Element? {
      StandardIsLegal(es.value);
      StandardElementsAreLegal(es.rest);
    }
  }

  lemma {:induction false} StandardMembersAreLegal(ms: Members)
    requires StandardMembers(ms)
    ensures LegalMembers(ms)
    decreases ms
  {
    hide White, LegalUnits, Bytes;
    if ms.Member? {
      StandardIsLegal(ms.value);
      if ms.next.Another? { StandardMembersAreLegal(ms.next.rest); }
      assert LegalNext(ms.next);
    }
  }

  // ---------------------------------------------------------------- names and code points

  /** The last member of this name, if there is one. */
  function LastNamed(toDouble: ToDouble, ms: Members, name: string): Option<Payload>
    requires LegalMembers(ms)
    decreases ms
  {
    if ms.NoMembers? then None
    else
      assert LegalNext(ms.next);
      var later := if ms.next.NoNext? then None else LastNamed(toDouble, ms.next.rest, name);
      if later.Some? then later else if Bytes(ms.name) == Some(name) then Meaning(toDouble, ms.value) else None
  }

  lemma {:induction false} FindPut(es: Entries, key: CZString, n: Node, other: CZString)
    ensures Find(Put(es, key, n), other) == if other == key then Some(n) else Find(es, other)
    decreases es
  {
    if es.Cons? && es.key != key && !KeyLess(key, es.key) { FindPut(es.rest, key, n, other); }
  }

  /** In the meaning of an object a name has the value of its last member. */
  lemma {:induction false} LastMemberWins(toDouble: ToDouble, done: Entries, ms: Members, name: string)
    requires LegalMembers(ms) && Named(toDouble, done, ms).Some?
    ensures var last := LastNamed(toDouble, ms, name);
            Find(Named(toDouble, done, ms).value, Name(name)) == if last.Some? then Some(Node(last.value, 0, 0)) else Find(done, Name(name))
    decreases ms
  {
    hide Meaning, Bytes, Put, Find, LegalGap, LegalUnits, White, Legal, LegalMark;
    if ms.Member? {
      var key, p := Name(Bytes(ms.name).value), Meaning(toDouble, ms.value).value;
      if ms.next.Another? { LastMemberWins(toDouble, Put(done, key, Node(p, 0, 0)), ms.next.rest, name); }
      FindPut(done, key, Node(p, 0, 0), Name(name));
    }
  }

  /** The code point that a UTF-8 sequence stands for, by RFC 3629 section 3. */
  function Utf8Value(s: string): int
    requires 1 <= |s| <= 4
  {
    if |s| == 1 then s[0] as int
    else if |s| == 2 then (s[0] as int - 0xC0) * 0x40 + Tail(s[1])
    else if |s| == 3 then (s[0] as int - 0xE0) * 0x1000 + Tail(s[1]) * 0x40 + Tail(s[2])
    else (s[0] as int - 0xF0) * 0x40000 + Tail(s[1]) * 0x1000 + Tail(s[2]) * 0x40 + Tail(s[3])
  }

  function Tail(c: char): int { c as int - 0x80 }

  /** A number by its base-64 digits. */
  lemma SixBits(n: nat)
    ensures n == n / 0x40 * 0x40 + n % 0x40 && n / 0x40 / 0x40 == n / 0x1000 && n / 0x1000 / 0x40 == n / 0x40000
  {
  }

  /** Every code point is encoded in the fewest bytes that hold it, and they stand for it. */
  lemma Utf8Inverts(cp: nat)
    requires cp <= 0x10FFFF
    ensures |Utf8(cp)| == if cp <= 0x7F then 1 else if cp <= 0x7FF then 2 else if cp <= 0xFFFF then 3 else 4
    ensures Utf8Value(Utf8(cp)) == cp
    ensures forall i :: 1 <= i < |Utf8(cp)| ==> 0 <= Tail(Utf8(cp)[i]) < 0x40
  {
    SixBits(cp);
    SixBits(cp / 0x40);
    SixBits(cp / 0x1000);
  }
}
