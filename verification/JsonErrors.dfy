/** What the reader reports: every error is true of the token, or of the character, that it names. */
module JsonErrors {
  import opened Basics
  import opened JsonValue
  import opened JsonLexer
  import opened JsonText
  import opened JsonGrammar
  import opened JsonDocuments
  import opened JsonAccepted

  /** `text` is a string token, `end` the place of its closing quote; the fault lies before `at`, or is that too little follows. */
  ghost predicate Faulty(text: string, end: nat, message: Message, at: nat) {
    1 <= at <= end < |text| &&
    match message
    case EmptyEscape => at == end && text[at - 1] == '\\'
    case BadEscape => at >= 2 && text[at - 2] == '\\' && text[at - 1] !in "\"\\/bfnrtu"
    case FourDigitsExpected => at >= 2 && text[at - 2] == '\\' && text[at - 1] == 'u' && end - at < 4
    case HexDigitExpected =>
      && text[at - 1] !in "0123456789abcdefABCDEF"
      && exists j {:trigger text[j]} :: 1 <= j && at - 5 <= j <= at - 2 && text[j] == 'u' && text[j - 1] == '\\'
    case SixCharactersExpected => end - at < 6 && HalfBefore(text, at)
    case SecondHalfExpected =>
      || (text[at - 1] != '\\' && HalfBefore(text, at - 1))
      || (at >= 2 && text[at - 2] == '\\' && text[at - 1] != 'u' && HalfBefore(text, at - 2))
    case _ => false
  }

  /** The escape for the first half of a surrogate pair ends at `at`. */
  ghost predicate HalfBefore(text: string, at: nat) {
    && 6 <= at <= |text| && text[at - 6] == '\\' && text[at - 5] == 'u'
    && LegalUnit(Hex(text[at - 4..at])) && 0xD800 <= HexCode(text[at - 4..at]) <= 0xDBFF
  }

  /** The error names a token of the document, and that token is none of those that could stand there. */
  ghost predicate Justified(toDouble: ToDouble, doc: string, e: ErrorInfo) {
    var t := e.token;
    t.start <= t.end <= |doc| && t == TokenAt(doc, t.start) &&
    match e.message
    case ValueExpected =>
      && e.extra == None && t.kind != ObjectBegin && t.kind != ArrayBegin && t.kind != String && t.kind != Number
      && t.kind != True && t.kind != False && t.kind != Null
    case MissingColon => e.extra == None && t.kind != MemberSeparator
    case MissingObjectSeparator => e.extra == None && t.kind != ObjectEnd && t.kind != ArraySeparator && t.kind != Comment
    case MissingName => e.extra == None && t.kind != String && t.kind != Comment
    case MissingArraySeparator => e.extra == None && t.kind != ArrayEnd && t.kind != ArraySeparator && t.kind != Comment
    case NotANumber(text) => e.extra == None && t.kind == Number && text == doc[t.start..t.end] && toDouble(text).None?
    case BadRoot => false
    case m =>
      && t.kind == String && t.start + 2 <= t.end && e.extra.Some? && t.start <= e.extra.value
      && Faulty(doc[t.start..t.end], t.end - t.start - 1, m, e.extra.value - t.start)
  }

  // ---------------------------------------------------------------- strings

  lemma {:induction false} HexFault(text: string, pos: nat, left: nat, code: nat, end: nat)
    requires pos + left <= end < |text| && left <= 4 && pos + left >= 6 && HexDigits(text, pos, left, code).BadUnicode?
    requires text[pos + left - 5] == 'u' && text[pos + left - 6] == '\\'
    ensures var u := HexDigits(text, pos, left, code); Faulty(text, end, u.message, u.at)
    decreases left
  {
    var d := HexValue(text[pos]);
    hide HexValue, Faulty;
    if d.None? { BadDigit(text, pos, left, end); } else { HexFault(text, pos + 1, left - 1, code * 16 + d.value, end); }
  }

  lemma BadDigit(text: string, pos: nat, left: nat, end: nat)
    requires pos + left <= end < |text| && 1 <= left <= 4 && pos + left >= 6 && HexValue(text[pos]).None?
    requires text[pos + left - 5] == 'u' && text[pos + left - 6] == '\\'
    ensures Faulty(text, end, HexDigitExpected, pos + 1)
  {
    HexDigitsAre(0, text[pos]);
    hide HexValue;
    assert text[pos + left - 5] == 'u';
  }

  lemma EscapeFault(text: string, pos: nat, end: nat)
    requires 2 <= pos <= end < |text| && text[pos - 2] == '\\' && text[pos - 1] == 'u' && UnicodeEscape(text, pos, end).BadUnicode?
    ensures var u := UnicodeEscape(text, pos, end); Faulty(text, end, u.message, u.at)
  {
    hide HexDigits;
    if end - pos >= 4 { HexFault(text, pos, 4, 0, end); }
  }

  lemma CodePointFault(text: string, pos: nat, end: nat)
    requires 2 <= pos <= end < |text| && text[pos - 2] == '\\' && text[pos - 1] == 'u' && CodePoint(text, pos, end).BadUnicode?
    ensures var u := CodePoint(text, pos, end); Faulty(text, end, u.message, u.at)
  {
    hide UnicodeEscape, HexCode, LegalUnit;
    var first := UnicodeEscape(text, pos, end);
    if first.BadUnicode? {
      EscapeFault(text, pos, end);
    } else {
      HexHere(text, pos - 2, end);
      EscapeDecodes(text, pos - 2, end, text[pos..pos + 4]);
      assert HalfBefore(text, pos + 4);
      if end - first.next >= 6 && text[first.next] == '\\' && text[first.next + 1] == 'u' {
        EscapeFault(text, first.next + 2, end);
      }
    }
  }

  lemma UnescapeFault(text: string, pos: nat, end: nat)
    requires 1 <= pos <= end < |text| && text[pos - 1] == '\\' && Unescape(text, pos, end).BadEscaped?
    ensures var u := Unescape(text, pos, end); Faulty(text, end, u.message, u.at)
  {
    hide CodePoint, SimpleEscape;
    if pos < end {
      if text[pos] == 'u' { CodePointFault(text, pos + 1, end); } else { ShortEscapesAre(0, text[pos]); }
    }
  }

  lemma {:induction false} StringFault(text: string, pos: nat, end: nat)
    requires pos <= end < |text| && DecodeChars(text, pos, end).Failed?
    ensures var d := DecodeChars(text, pos, end); Faulty(text, end, d.message, d.at)
    decreases end - pos
  {
    hide Unescape, Faulty;
    if text[pos] != '\\' {
      StringFault(text, pos + 1, end);
    } else {
      var u := Unescape(text, pos + 1, end);
      if u.BadEscaped? { UnescapeFault(text, pos + 1, end); } else { StringFault(text, u.next, end); }
    }
  }

  // ---------------------------------------------------------------- values

  /** The error of a failure is justified. */
  ghost predicate FailsJustly(toDouble: ToDouble, doc: string, r: Outcome) {
    r.Ret? && !r.ok ==> |r.errors| == 1 && Justified(toDouble, doc, r.errors[0])
  }

  lemma ScalarError(toDouble: ToDouble, doc: string, t: Token, init: Node)
    requires t.start <= t.end <= |doc| && t == TokenAt(doc, t.start) && (t.kind == String ==> t.end - t.start >= 2)
    requires t.kind != ObjectBegin && t.kind != ArrayBegin
    ensures FailsJustly(toDouble, doc, ReadScalar(toDouble, doc, t, init))
  {
    hide TokenAt, DecodeChars, Faulty, FitsInteger, DigitsValue;
    if t.kind == String && DecodeString(Text(doc, t)).Failed? { StringErrorIsJust(toDouble, doc, t); }
  }

  lemma StringErrorIsJust(toDouble: ToDouble, doc: string, t: Token)
    requires t.start + 2 <= t.end <= |doc| && t == TokenAt(doc, t.start) && t.kind == String && DecodeString(Text(doc, t)).Failed?
    ensures Justified(toDouble, doc, StringError(t, DecodeString(Text(doc, t))))
  {
    hide TokenAt, DecodeChars, Faulty;
    StringFault(Text(doc, t), 1, t.end - t.start - 1);
  }

  lemma {:induction false} ValueErrors(toDouble: ToDouble, doc: string, pos: nat, depth: nat, init: Node)
    requires pos <= |doc|
    ensures FailsJustly(toDouble, doc, ParseValue(toDouble, doc, pos, depth, init))
    decreases |doc| - pos, 0
  {
    hide ReadToken, TokenAt, ParseValue, ParseMembers, ParseArray, ReadScalar, Justified;
    ParseValueCases(toDouble, doc, pos, depth, init);
    var t := ReadToken(doc, pos);
    TokenRun(doc, pos);
    if depth < STACK_LIMIT {
      if t.kind == ObjectBegin {
        MembersErrors(toDouble, doc, t.end, depth + 1, Node(ObjectValue(Nil), t.start, init.limit), "");
      } else if t.kind == ArrayBegin {
        ArrayErrors(toDouble, doc, t.end, depth + 1, Node(ArrayValue(Nil), t.start, init.limit));
      } else {
        ScalarError(toDouble, doc, t, init);
      }
    }
  }

  /** The next token that is no comment, as it stands. */
  lemma NextStands(doc: string, pos: nat)
    requires pos <= |doc|
    ensures var t := SkipComments(doc, ReadToken(doc, pos)); t == TokenAt(doc, t.start) && t.start <= t.end <= |doc| && t.kind != Comment
    ensures var t := ReadToken(doc, pos); t == TokenAt(doc, t.start) && t.start <= t.end <= |doc|
    ensures pos <= SkipComments(doc, ReadToken(doc, pos)).start
  {
    hide TokenAt;
    TokenRun(doc, pos);
    SkippedAt(doc, ReadToken(doc, pos));
  }

  lemma {:induction false} MembersErrors(toDouble: ToDouble, doc: string, pos: nat, depth: nat, node: Node, name: string)
    requires pos <= |doc| && node.payload.ObjectValue?
    ensures FailsJustly(toDouble, doc, ParseMembers(toDouble, doc, pos, depth, node, name))
    decreases |doc| - pos, 2
  {
    hide ReadToken, TokenAt, SkipComments, ParseMember, ParseMembers;
    ParseMembersCases(toDouble, doc, pos, depth, node, name);
    NextStands(doc, pos);
    var t := SkipComments(doc, ReadToken(doc, pos));
    hide Justified;
    if t.kind == String {
      MemberErrors(toDouble, doc, t, depth, node);
      var turn := ParseMember(toDouble, doc, t, depth, node);
      if turn.More? { MembersErrors(toDouble, doc, turn.pos, depth, turn.node, turn.name); }
    } else {
      FailureIsJust(toDouble, doc, MissingName, t, node, ObjectEnd);
    }
  }

  lemma FailureIsJust(toDouble: ToDouble, doc: string, message: Message, t: Token, node: Node, skipUntil: TokenType)
    requires t.end <= |doc| && Justified(toDouble, doc, ErrorInfo(message, t, None))
    ensures FailsJustly(toDouble, doc, Failure(doc, message, t, node, skipUntil))
  {
    hide Justified, Recover;
  }

  lemma {:induction false} MemberErrors(toDouble: ToDouble, doc: string, t: Token, depth: nat, node: Node)
    requires t.start + 2 <= t.end <= |doc| && t == TokenAt(doc, t.start) && t.kind == String && node.payload.ObjectValue?
    ensures var turn := ParseMember(toDouble, doc, t, depth, node); turn.Stop? ==> FailsJustly(toDouble, doc, turn.outcome)
    decreases |doc| - t.end, 1
  {
    hide ReadToken, TokenAt, SkipComments, ParseValue, DecodeString, AfterMember, Put, Child, Recover;
    var d, colon := DecodeString(Text(doc, t)), ReadToken(doc, t.end);
    NextStands(doc, t.end);
    if d.Failed? {
      StringErrorIsJust(toDouble, doc, t);
    } else if colon.kind == MemberSeparator {
      var init := Child(node.payload.members, Name(d.value));
      ValueErrors(toDouble, doc, colon.end, depth, init);
      var r := ParseValue(toDouble, doc, colon.end, depth, init);
      if r.Ret? && r.ok {
        AfterMemberErrors(toDouble, doc, r.pos, node.(payload := ObjectValue(Put(node.payload.members, Name(d.value), r.node))), d.value);
      }
    }
  }

  lemma AfterMemberErrors(toDouble: ToDouble, doc: string, pos: nat, node: Node, name: string)
    requires pos <= |doc|
    ensures var turn := AfterMember(doc, pos, node, name); turn.Stop? ==> FailsJustly(toDouble, doc, turn.outcome)
  {
    hide ReadToken, TokenAt, SkipComments, Recover;
    NextStands(doc, pos);
  }

  lemma {:induction false} ArrayErrors(toDouble: ToDouble, doc: string, pos: nat, depth: nat, node: Node)
    requires pos <= |doc| && node.payload.ArrayValue?
    ensures FailsJustly(toDouble, doc, ParseArray(toDouble, doc, pos, depth, node))
    decreases |doc| - pos, 2
  {
    hide ReadToken, SkipSpaces, ParseElements, Justified;
    ElementsErrors(toDouble, doc, SkipSpaces(doc, pos), depth, node, 0);
  }

  lemma {:induction false} ElementsErrors(toDouble: ToDouble, doc: string, pos: nat, depth: nat, node: Node, index: nat)
    requires pos <= |doc| && node.payload.ArrayValue?
    ensures FailsJustly(toDouble, doc, ParseElements(toDouble, doc, pos, depth, node, index))
    decreases |doc| - pos, 1
  {
    hide ReadToken, TokenAt, SkipComments, ParseValue, Put, Child, Recover;
    var init := Child(node.payload.items, Index(index));
    ValueErrors(toDouble, doc, pos, depth, init);
    var r := ParseValue(toDouble, doc, pos, depth, init);
    if r.Ret? && r.ok {
      NextStands(doc, r.pos);
      var t := SkipComments(doc, ReadToken(doc, r.pos));
      var grown := node.(payload := ArrayValue(Put(node.payload.items, Index(index), r.node)));
      if t.kind == ArraySeparator { ElementsErrors(toDouble, doc, t.end, depth, grown, index + 1); }
    }
  }

  /**
   A parse that fails reports one error that is justified, and behind it, or alone, that the root is no array or object,
   exactly if it is none; the token of that is the whole document.
   */
  lemma ParseErrors(toDouble: ToDouble, doc: string, root: Node)
    ensures var result := Parse(toDouble, doc, root);
            result.Parsed? && !result.ok ==>
              var bad := [ErrorInfo(BadRoot, Token(Error, 0, |doc|), None)];
              var container := result.root.payload.ArrayValue? || result.root.payload.ObjectValue?;
              || (!container && result.errors == bad)
              || (|result.errors| >= 1 && Justified(toDouble, doc, result.errors[0])
                  && result.errors[1..] == if container then [] else bad)
  {
    hide ParseValue, Justified;
    ValueErrors(toDouble, doc, 0, 0, root);
  }
}
