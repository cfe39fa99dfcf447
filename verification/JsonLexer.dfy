/**
 The scanner of the JSON reader, as functions of the document and a position.
 The document is NUL-terminated, so looking at its end yields NUL.
 */
module JsonLexer {
  import opened Basics

  datatype TokenType =
    | EndOfStream | ObjectBegin | ObjectEnd | ArrayBegin | ArrayEnd
    | String | Number | True | False | Null
    | ArraySeparator | MemberSeparator | Comment | Error

  datatype Token = Token(kind: TokenType, start: nat, end: nat)

  function Peek(doc: string, pos: nat): char {
    if pos < |doc| then doc[pos] else '\0'
  }

  /** Where getNextChar leaves the read position. */
  function Advance(doc: string, pos: nat): (next: nat)
    requires pos <= |doc|
    ensures pos <= next <= |doc|
  {
    if pos < |doc| then pos + 1 else pos
  }

  predicate IsSpace(c: char) { c == ' ' || c == '\t' || c == '\r' || c == '\n' }
  predicate IsDigit(c: char) { '0' <= c <= '9' }

  function SkipSpaces(doc: string, pos: nat): (end: nat)
    requires pos <= |doc|
    ensures pos <= end <= |doc|
    decreases |doc| - pos
  {
    if pos < |doc| && IsSpace(doc[pos]) then SkipSpaces(doc, pos + 1) else pos
  }

  function SkipDigits(doc: string, pos: nat): (end: nat)
    requires pos <= |doc|
    ensures pos <= end <= |doc|
    decreases |doc| - pos
  {
    if pos < |doc| && IsDigit(doc[pos]) then SkipDigits(doc, pos + 1) else pos
  }

  function FractionEnd(doc: string, pos: nat): (end: nat)
    requires pos <= |doc|
    ensures pos <= end <= |doc|
  {
    if pos < |doc| && doc[pos] == '.' then SkipDigits(doc, pos + 1) else pos
  }

  function SignEnd(doc: string, pos: nat): (end: nat)
    requires pos <= |doc|
    ensures pos <= end <= |doc|
  {
    if pos < |doc| && (doc[pos] == '+' || doc[pos] == '-') then pos + 1 else pos
  }

  function ExponentEnd(doc: string, pos: nat): (end: nat)
    requires pos <= |doc|
    ensures pos <= end <= |doc|
  {
    if pos < |doc| && (doc[pos] == 'e' || doc[pos] == 'E')
    then SkipDigits(doc, SignEnd(doc, pos + 1)) else pos
  }

  /** The end of a number whose first character has been consumed. */
  function NumberEnd(doc: string, pos: nat): (end: nat)
    requires pos <= |doc|
    ensures pos <= end <= |doc|
  {
    ExponentEnd(doc, FractionEnd(doc, SkipDigits(doc, pos)))
  }

  datatype Scan = Scan(ok: bool, end: nat)

  /** The rest of a string whose opening quote has been consumed. */
  function StringEnd(doc: string, pos: nat): (s: Scan)
    requires pos <= |doc|
    ensures pos <= s.end <= |doc|
    decreases |doc| - pos
  {
    if pos == |doc| then Scan(false, pos)
    else if doc[pos] == '\\' then StringEnd(doc, Advance(doc, pos + 1))
    else if doc[pos] == '"' then Scan(true, pos + 1)
    else StringEnd(doc, pos + 1)
  }

  /** The position just past the star that ends a C comment, or the end of the document. */
  function CStyleStop(doc: string, pos: nat): (end: nat)
    requires pos <= |doc|
    ensures pos <= end <= |doc|
    decreases |doc| - pos
  {
    if pos == |doc| then pos
    else if doc[pos] == '*' && Peek(doc, pos + 1) == '/' then pos + 1
    else CStyleStop(doc, pos + 1)
  }

  function CppStyleEnd(doc: string, pos: nat): (end: nat)
    requires pos <= |doc|
    ensures pos <= end <= |doc|
    decreases |doc| - pos
  {
    if pos == |doc| then pos
    else if doc[pos] == '\n' then pos + 1
    else if doc[pos] == '\r' then (if Peek(doc, pos + 1) == '\n' then pos + 2 else pos + 1)
    else CppStyleEnd(doc, pos + 1)
  }

  /** The rest of a comment whose first slash has been consumed. */
  function CommentEnd(doc: string, pos: nat): (s: Scan)
    requires pos <= |doc|
    ensures pos <= s.end <= |doc|
  {
    var next := Advance(doc, pos);
    if Peek(doc, pos) == '*' then
      var stop := CStyleStop(doc, next);
      Scan(Peek(doc, stop) == '/', Advance(doc, stop))
    else if Peek(doc, pos) == '/' then Scan(true, CppStyleEnd(doc, next))
    else Scan(false, next)
  }

  function LiteralEnd(doc: string, pos: nat, pattern: string): (s: Scan)
    requires pos <= |doc|
    ensures pos <= s.end <= |doc|
  {
    if |doc| - pos < |pattern| || doc[pos..pos + |pattern|] != pattern then Scan(false, pos)
    else Scan(true, pos + |pattern|)
  }

  function Scanned(kind: TokenType, start: nat, s: Scan): Token {
    Token(if s.ok then kind else Error, start, s.end)
  }

  /** The token whose first character stands at `start`. */
  function TokenAt(doc: string, start: nat): (t: Token)
    requires start <= |doc|
    ensures start == t.start <= t.end <= |doc|
    ensures t.start == t.end ==> t.kind == EndOfStream && t.end == |doc|
  {
    var next := Advance(doc, start);
    match Peek(doc, start)
    case '{' => Token(ObjectBegin, start, next)
    case '}' => Token(ObjectEnd, start, next)
    case '[' => Token(ArrayBegin, start, next)
    case ']' => Token(ArrayEnd, start, next)
    case '"' => Scanned(String, start, StringEnd(doc, next))
    case '/' => Scanned(Comment, start, CommentEnd(doc, next))
    case 't' => Scanned(True, start, LiteralEnd(doc, next, "rue"))
    case 'f' => Scanned(False, start, LiteralEnd(doc, next, "alse"))
    case 'n' => Scanned(Null, start, LiteralEnd(doc, next, "ull"))
    case ',' => Token(ArraySeparator, start, next)
    case ':' => Token(MemberSeparator, start, next)
    case '\0' => Token(EndOfStream, start, next)
    case c => if IsDigit(c) || c == '-' then Token(Number, start, NumberEnd(doc, next))
              else Token(Error, start, next)
  }

  function ReadToken(doc: string, pos: nat): (t: Token)
    requires pos <= |doc|
    ensures pos <= t.start <= t.end <= |doc|
    ensures t.start == t.end ==> t.kind == EndOfStream && t.end == |doc|
  {
    TokenAt(doc, SkipSpaces(doc, pos))
  }

  /** The token after any run of comments. */
  function SkipComments(doc: string, t: Token): (r: Token)
    requires t.start <= t.end <= |doc|
    requires t.start == t.end ==> t.kind == EndOfStream
    ensures t.end <= r.end <= |doc| && r.start <= r.end && r.kind != Comment
    ensures r.start == r.end ==> r.kind == EndOfStream
    ensures t.kind != Comment ==> r == t
    ensures t.kind == Comment ==> t.end <= r.start
    decreases |doc| - t.end, t.kind == Comment
  {
    if t.kind != Comment then t else SkipComments(doc, ReadToken(doc, t.end))
  }

  /** Where recovery stops: past the first token of the given kind, or past the end of the stream. */
  function Recover(doc: string, pos: nat, skipUntil: TokenType): (end: nat)
    requires pos <= |doc|
    ensures pos <= end <= |doc|
    decreases |doc| - pos
  {
    var t := ReadToken(doc, pos);
    if t.kind == skipUntil || t.kind == EndOfStream then t.end else Recover(doc, t.end, skipUntil)
  }
}
