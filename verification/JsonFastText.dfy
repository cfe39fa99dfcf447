/** The text FastWriter produces, and that it spells the value written, less the elements its int size cannot count. */
module JsonFastText {
  import opened Basics
  import opened JsonValue
  import opened JsonLexer
  import opened JsonText
  import opened JsonGrammar
  import opened JsonSpelling
  import opened JsonSizes

  /** How a double is printed; no result below depends on it. */
  type ShowReal = Double -> string

  function FastText(show: ShowReal, p: Payload): string
    decreases p
  {
    match p
    case NullValue => "null"
    case IntValue(i) => IntegerText(i)
    case UIntValue(u) => IntegerText(u)
    case RealValue(r) => show(r)
    case StringValue(s) => Quoted(s)
    case NullString => ""
    case BoolValue(b) => if b then "true" else "false"
    case ArrayValue(es) => if IntSize(es) <= 0 then "[]" else "[" + FastItems(show, es, 0)
    case ObjectValue(es) => if es.Nil? then "{}" else "{" + FastMembers(show, es)
  }

  /** The elements from index `i` on, and the closing bracket; a missing element is a null. */
  function FastItems(show: ShowReal, es: Entries, i: nat): string
    requires es.Cons?
    decreases es, if IsHole(es, i) then es.key.index - i else 0
  {
    if IsHole(es, i) then "null" + "," + FastItems(show, es, i + 1)
    else FastText(show, es.node.payload) + (if es.rest.Nil? then "]" else "," + FastItems(show, es.rest, i + 1))
  }

  function FastMembers(show: ShowReal, es: Entries): string
    requires es.Cons?
    decreases es
  {
    Quoted(KeyText(es.key)) + ":" + FastText(show, es.node.payload)
    + (if es.rest.Nil? then "}" else "," + FastMembers(show, es.rest))
  }

  // ---------------------------------------------------------------- tokens where they stand

  /** No character at `pos` could extend a number. */
  predicate Stops(doc: string, pos: nat) {
    pos >= |doc| || !(IsDigit(doc[pos]) || doc[pos] == '.' || doc[pos] == 'e' || doc[pos] == 'E')
  }

  predicate IsPunctuation(kind: TokenType, c: char) {
    match kind
    case ObjectBegin => c == '{'
    case ObjectEnd => c == '}'
    case ArrayBegin => c == '['
    case ArrayEnd => c == ']'
    case ArraySeparator => c == ','
    case MemberSeparator => c == ':'
    case _ => false
  }

  lemma PunctuationToken(doc: string, pos: nat, kind: TokenType, c: char)
    requires Occurs(doc, pos, [c]) && IsPunctuation(kind, c)
    ensures pos + 1 <= |doc| && Expect(doc, pos, kind, [c]) == Some(pos + 1)
  {
    OccursAt(doc, pos, [c], 0);
  }

  lemma {:induction false} SkipDigitsOver(doc: string, pos: nat, s: string)
    requires Occurs(doc, pos, s) && AllDigits(s) && (pos + |s| < |doc| ==> !IsDigit(doc[pos + |s|]))
    ensures pos + |s| <= |doc| && SkipDigits(doc, pos) == pos + |s|
    decreases s
  {
    if s != [] {
      OccursParts(doc, pos, s[..1], s[1..]);
      assert s[..1] + s[1..] == s;
      OccursAt(doc, pos, s, 0);
      SkipDigitsOver(doc, pos + 1, s[1..]);
    }
  }

  lemma NumberEndOver(doc: string, pos: nat, s: string)
    requires Occurs(doc, pos, s) && AllDigits(s) && Stops(doc, pos + |s|)
    ensures pos + |s| <= |doc| && NumberEnd(doc, pos) == pos + |s|
  {
    SkipDigitsOver(doc, pos, s);
  }

  /** The tokens whose first character is given, up to their scanners. */
  lemma NumberStarts(doc: string, pos: nat)
    requires pos < |doc| && (doc[pos] == '-' || IsDigit(doc[pos]))
    ensures ReadToken(doc, pos) == Token(Number, pos, NumberEnd(doc, pos + 1))
  {
    hide NumberEnd;
  }

  lemma StringStarts(doc: string, pos: nat)
    requires pos < |doc| && doc[pos] == '"'
    ensures ReadToken(doc, pos) == Scanned(String, pos, StringEnd(doc, pos + 1))
  {
    hide StringEnd;
  }

  lemma DigitsThenToken(doc: string, pos: nat, first: char, s: string)
    requires Occurs(doc, pos, [first] + s) && AllDigits(s) && Stops(doc, pos + 1 + |s|)
    requires first == '-' || IsDigit(first)
    ensures pos + 1 + |s| <= |doc| && Expect(doc, pos, Number, [first] + s) == Some(pos + 1 + |s|)
  {
    OccursParts(doc, pos, [first], s);
    OccursAt(doc, pos, [first], 0);
    NumberEndOver(doc, pos + 1, s);
    hide NumberEnd, ReadToken;
    NumberStarts(doc, pos);
  }

  lemma NumberToken(doc: string, pos: nat, i: int)
    requires Occurs(doc, pos, IntegerText(i)) && Stops(doc, pos + |IntegerText(i)|)
    ensures pos + |IntegerText(i)| <= |doc|
    ensures Expect(doc, pos, Number, IntegerText(i)) == Some(pos + |IntegerText(i)|)
  {
    var text := IntegerText(i);
    assert text == [text[0]] + text[1..];
    DigitsThenToken(doc, pos, text[0], text[1..]);
  }

  lemma StringToken(doc: string, pos: nat, s: string)
    requires Occurs(doc, pos, Quoted(s))
    ensures pos + |Quoted(s)| <= |doc|
    ensures Expect(doc, pos, String, Quoted(s)) == Some(pos + |Quoted(s)|)
  {
    hide StringEnd, EscapeAll, ReadToken, Quoted;
    QuotedParts(s);
    OccursParts(doc, pos, "\"", EscapeAll(s) + "\"");
    OccursAt(doc, pos, "\"", 0);
    ScanEscaped(doc, pos + 1, s);
    StringStarts(doc, pos);
  }

  lemma QuotedParts(s: string)
    ensures Quoted(s) == "\"" + (EscapeAll(s) + "\"")
  {
    hide EscapeAll;
  }

  predicate IsLiteral(kind: TokenType, text: string) {
    match kind
    case Null => text == "null"
    case True => text == "true"
    case False => text == "false"
    case _ => false
  }

  lemma LiteralToken(doc: string, pos: nat, kind: TokenType, text: string)
    requires Occurs(doc, pos, text) && IsLiteral(kind, text)
    ensures pos + |text| <= |doc| && Expect(doc, pos, kind, text) == Some(pos + |text|)
  {
    assert text == text[..1] + text[1..];
    OccursParts(doc, pos, text[..1], text[1..]);
    OccursAt(doc, pos, text, 0);
    assert LiteralEnd(doc, pos + 1, text[1..]) == Scan(true, pos + |text|);
    assert text[1..] == match kind case Null => "ull" case True => "rue" case _ => "alse";
  }

  // ---------------------------------------------------------------- the text spells the value

  lemma FastScalarSpells(show: ShowReal, doc: string, pos: nat, p: Payload)
    requires Plain(p) && !p.ArrayValue? && !p.ObjectValue?
    requires Occurs(doc, pos, FastText(show, p)) && Stops(doc, pos + |FastText(show, p)|)
    ensures pos + |FastText(show, p)| <= |doc| && Spell(doc, pos, p) == Some(pos + |FastText(show, p)|)
  {
    hide Expect, IntegerText, Quoted, Occurs, Stops;
    OccursFits(doc, pos, FastText(show, p));
    match p
    case NullValue => LiteralToken(doc, pos, Null, "null");
    case IntValue(i) => NumberToken(doc, pos, i);
    case UIntValue(u) => NumberToken(doc, pos, u);
    case StringValue(s) => StringToken(doc, pos, s);
    case BoolValue(b) => LiteralToken(doc, pos, if b then True else False, if b then "true" else "false");
    case _ =>
  }

  lemma {:induction false} FastSpells(show: ShowReal, doc: string, pos: nat, p: Payload)
    requires Plain(p)
    requires Occurs(doc, pos, FastText(show, p)) && Stops(doc, pos + |FastText(show, p)|)
    ensures pos + |FastText(show, p)| <= |doc| && Spell(doc, pos, Crop(p, true)) == Some(pos + |FastText(show, p)|)
    decreases p
  {
    hide Expect, SpellItems, SpellMembers, FastItems, FastMembers, Occurs, Stops, UIntSize, CropEntries;
    if p.ArrayValue? {
      FastArraySpells(show, doc, pos, p.items);
    } else if p.ObjectValue? {
      FastObjectSpells(show, doc, pos, p.members);
    } else {
      FastScalarSpells(show, doc, pos, p);
    }
  }

  lemma {:induction false} FastArraySpells(show: ShowReal, doc: string, pos: nat, es: Entries)
    requires PlainEntries(es) && Occurs(doc, pos, FastText(show, ArrayValue(es)))
    ensures var text := FastText(show, ArrayValue(es));
            pos + |text| <= |doc| && Spell(doc, pos, Crop(ArrayValue(es), true)) == Some(pos + |text|)
    decreases es, 1
  {
    hide Expect, SpellItems, FastItems, Occurs, CropEntries;
    var none := IntSize(es) <= 0;
    var tail := if none then "]" else FastItems(show, es, 0);
    assert FastText(show, ArrayValue(es)) == "[" + tail;
    OccursParts(doc, pos, "[", tail);
    PunctuationToken(doc, pos, ArrayBegin, '[');
    if none {
      PunctuationToken(doc, pos + 1, ArrayEnd, ']');
    } else {
      FastItemsSpell(show, doc, pos + 1, es, 0);
      CropParts(es, true, 0);
    }
  }

  lemma {:induction false} FastObjectSpells(show: ShowReal, doc: string, pos: nat, es: Entries)
    requires PlainEntries(es) && Occurs(doc, pos, FastText(show, ObjectValue(es)))
    ensures var text := FastText(show, ObjectValue(es));
            pos + |text| <= |doc| && Spell(doc, pos, Crop(ObjectValue(es), true)) == Some(pos + |text|)
    decreases es, 1
  {
    hide Expect, SpellMembers, FastMembers, Occurs;
    var tail := if es.Nil? then "}" else FastMembers(show, es);
    assert FastText(show, ObjectValue(es)) == "{" + tail;
    OccursParts(doc, pos, "{", tail);
    PunctuationToken(doc, pos, ObjectBegin, '{');
    if es.Nil? {
      PunctuationToken(doc, pos + 1, ObjectEnd, '}');
    } else {
      FastMembersSpell(show, doc, pos + 1, es);
    }
  }

  /** What follows a value inside a container: its closing bracket, or a comma and the rest. */
  lemma FollowStops(doc: string, pos: nat, c: char, rest: string)
    requires Occurs(doc, pos, [c] + rest) && (c == ',' || c == ']' || c == '}')
    ensures Stops(doc, pos) && Occurs(doc, pos, [c]) && Occurs(doc, pos + 1, rest)
  {
    OccursParts(doc, pos, [c], rest);
    OccursAt(doc, pos, [c], 0);
  }

  lemma {:induction false} FastItemsSpell(show: ShowReal, doc: string, pos: nat, es: Entries, i: nat)
    requires es.Cons? && PlainEntries(es)
    requires Occurs(doc, pos, FastItems(show, es, i))
    ensures pos + |FastItems(show, es, i)| <= |doc|
    ensures SpellItems(doc, pos, CropEntries(es, true), i) == Some(pos + |FastItems(show, es, i)|)
    decreases es, 0, if IsHole(es, i) then es.key.index - i else 0
  {
    hide Expect, Spell, FastText, Occurs, Stops, Crop, CropEntries;
    CropParts(es, true, i);
    OccursFits(doc, pos, FastItems(show, es, i));
    var item := FastText(show, ItemAt(es, i));
    assert IsHole(es, i) ==> item == "null" by { NullText(show); }
    var next := NextItems(es, i);
    var tail := if next.Nil? then "" else FastItems(show, next, i + 1);
    var c := if next.Nil? then ']' else ',';
    assert FastItems(show, es, i) == item + ([c] + tail);
    OccursParts(doc, pos, item, [c] + tail);
    FollowStops(doc, pos + |item|, c, tail);
    PunctuationToken(doc, pos + |item|, if next.Nil? then ArrayEnd else ArraySeparator, c);
    if IsHole(es, i) { LiteralToken(doc, pos, Null, "null"); } else { FastSpells(show, doc, pos, es.node.payload); }
    if next.Cons? { FastItemsSpell(show, doc, pos + |item| + 1, next, i + 1); }
  }

  lemma NullText(show: ShowReal)
    ensures FastText(show, NullValue) == "null"
  {
  }

  function MembersTail(show: ShowReal, es: Entries): string
    requires es.Cons?
  {
    if es.rest.Nil? then "" else FastMembers(show, es.rest)
  }

  lemma FastMembersParts(show: ShowReal, doc: string, pos: nat, es: Entries)
    requires es.Cons? && Occurs(doc, pos, FastMembers(show, es))
    ensures var name := Quoted(KeyText(es.key)); var item := FastText(show, es.node.payload);
            var tail := MembersTail(show, es); var at := pos + |name| + 1;
            && |FastMembers(show, es)| == |name| + 1 + |item| + 1 + |tail|
            && Occurs(doc, pos, name) && Occurs(doc, pos + |name|, [':']) && Occurs(doc, at, item)
            && Occurs(doc, at + |item|, [if es.rest.Nil? then '}' else ',']) && Stops(doc, at + |item|)
            && Occurs(doc, at + |item| + 1, tail)
  {
    hide FastText, Occurs, Stops, Quoted;
    var name := Quoted(KeyText(es.key));
    var item := FastText(show, es.node.payload);
    var tail := MembersTail(show, es);
    var c := if es.rest.Nil? then '}' else ',';
    assert FastMembers(show, es) == name + ([':'] + (item + ([c] + tail)));
    OccursParts(doc, pos, name, [':'] + (item + ([c] + tail)));
    OccursParts(doc, pos + |name|, [':'], item + ([c] + tail));
    OccursParts(doc, pos + |name| + 1, item, [c] + tail);
    FollowStops(doc, pos + |name| + 1 + |item|, c, tail);
  }

  lemma {:induction false} FastMembersSpell(show: ShowReal, doc: string, pos: nat, es: Entries)
    requires es.Cons? && PlainEntries(es)
    requires Occurs(doc, pos, FastMembers(show, es))
    ensures pos + |FastMembers(show, es)| <= |doc|
    ensures SpellMembers(doc, pos, CropEntries(es, true)) == Some(pos + |FastMembers(show, es)|)
    decreases es, 0
  {
    hide Expect, Spell, FastText, FastMembers, Occurs, Stops, Quoted, Crop, CropEntries;
    CropParts(es, true, 0);
    OccursFits(doc, pos, FastMembers(show, es));
    FastMembersParts(show, doc, pos, es);
    var name := Quoted(KeyText(es.key));
    var item := FastText(show, es.node.payload);
    var at := pos + |name| + 1;
    StringToken(doc, pos, KeyText(es.key));
    PunctuationToken(doc, pos + |name|, MemberSeparator, ':');
    FastSpells(show, doc, at, es.node.payload);
    if es.rest.Nil? {
      PunctuationToken(doc, at + |item|, ObjectEnd, '}');
    } else {
      PunctuationToken(doc, at + |item|, ArraySeparator, ',');
      FastMembersSpell(show, doc, at + |item| + 1, es.rest);
    }
  }

  // ---------------------------------------------------------------- the round trip

  /** write(): the value and a line feed. */
  function FastDocument(show: ShowReal, p: Payload): string { FastText(show, p) + "\n" }

  lemma FastDocumentSpells(show: ShowReal, p: Payload)
    requires Plain(p)
    ensures Spell(FastDocument(show, p), 0, Crop(p, true)) == Some(|FastText(show, p)|)
  {
    hide Spell, FastText, Crop;
    var doc := FastDocument(show, p);
    assert Occurs(doc, 0, FastText(show, p)) by { assert doc[0..|FastText(show, p)|] == FastText(show, p); }
    assert Stops(doc, |FastText(show, p)|);
    FastSpells(show, doc, 0, p);
  }

  /** Parsing a document that spells a value. */
  lemma SpelledDocument(toDouble: ToDouble, doc: string, p: Payload, root: Node)
    requires WellFormed(p) && Plain(p) && Spell(doc, 0, p).Some?
    ensures var result := Parse(toDouble, doc, root);
            && (result == ParseThrown <==> Depth(p) > STACK_LIMIT)
            && (result.Parsed? ==>
                && Strip(result.root.payload) == Canon(p)
                && (result.ok <==> p.ArrayValue? || p.ObjectValue?))
  {
    SpelledValue(toDouble, doc, 0, p, 0, root);
    var r := ParseValue(toDouble, doc, 0, 0, root);
    hide Spell, ParseValue;
    if r.Ret? {
      assert Strip(r.node.payload).ArrayValue? <==> r.node.payload.ArrayValue?;
      assert Strip(r.node.payload).ObjectValue? <==> r.node.payload.ObjectValue?;
    }
  }

  /** Parsing what was written: the value shown comes back canonical, or is nested too deeply for the reader's stack. */
  lemma WriteThenParseShown(toDouble: ToDouble, show: ShowReal, p: Payload, root: Node)
    requires WellFormed(p) && Plain(p)
    ensures var result := Parse(toDouble, FastDocument(show, p), root);
            && (result == ParseThrown <==> Depth(Crop(p, true)) > 1000)
            && (result.Parsed? ==>
                && Strip(result.root.payload) == Canon(Crop(p, true))
                && (result.ok <==> p.ArrayValue? || p.ObjectValue?))
  {
    hide FastDocument, Parse;
    FastDocumentSpells(show, p);
    CropKeepsForm(p, true);
    CropKeepsPlain(p, true);
    SpelledDocument(toDouble, FastDocument(show, p), Crop(p, true), root);
  }

  /**
   The round trip: a written value comes back canonical exactly when the reader's stack holds its
   nesting and an int the size of every array in it; and then it holds what was written, and the result is `true`
   exactly for a container.
   */
  lemma WriteThenParse(toDouble: ToDouble, show: ShowReal, p: Payload, root: Node)
    requires WellFormed(p) && Plain(p)
    ensures var result := Parse(toDouble, FastDocument(show, p), root);
            && (result.Parsed? && Strip(result.root.payload) == Canon(p) <==> Depth(p) <= 1000 && SizesFit(p, true))
            && (SizesFit(p, true) ==> (result == ParseThrown <==> Depth(p) > 1000))
            && (Depth(p) <= 1000 && SizesFit(p, true) ==> SameValue(p, Strip(result.root.payload)))
            && (result.Parsed? ==> (result.ok <==> p.ArrayValue? || p.ObjectValue?))
  {
    WriteThenParseShown(toDouble, show, p, root);
    CropShows(p, true);
    CropKeepsForm(p, true);
    CanonHoldsTheSame(p);
    hide FastDocument, Parse;
    if SizesFit(p, true) { CropNothing(p, true); }
  }

  /** An array with one entry, at the largest int. */
  const LONE := ArrayValue(Cons(Index(0x7FFF_FFFF), Node(IntValue(1), 0, 0), Nil))

  lemma LoneEntry(show: ShowReal)
    ensures WellFormed(LONE) && Plain(LONE) && Depth(LONE) == 2 && Crop(LONE, true) == ArrayValue(Nil)
    ensures FastDocument(show, LONE) == "[]\n"
  {
  }

  /** Its size is 2^31, which an int cannot hold: it is written as an empty array, and that comes back. */
  lemma LoneEntryIsLost(toDouble: ToDouble, show: ShowReal, root: Node)
    ensures var result := Parse(toDouble, FastDocument(show, LONE), root);
            && FastDocument(show, LONE) == "[]\n"
            && result.Parsed? && result.ok && Strip(result.root.payload) == ArrayValue(Nil) != Canon(LONE)
  {
    hide Parse, FastDocument;
    LoneEntry(show);
    WriteThenParseShown(toDouble, show, LONE, root);
    CropShows(LONE, true);
  }

  /** What was read back has no offsets to forget, and writing and reading it again changes nothing. */
  lemma {:induction false} CanonIsCanonical(p: Payload)
    requires WellFormed(p)
    ensures Canon(Canon(p)) == Canon(p) && Strip(Canon(p)) == Canon(p)
    decreases p
  {
    match p
    case ArrayValue(es) => FillIsCanonical(es, 0);
    case ObjectValue(es) => MembersAreCanonical(es);
    case _ =>
  }

  lemma {:induction false} FillIsCanonical(es: Entries, i: nat)
    requires WellFormedEntries(es)
    ensures Fill(Fill(es, i), i) == Fill(es, i) && StripEntries(Fill(es, i)) == Fill(es, i)
    decreases es, if IsHole(es, i) then es.key.index - i else 0
  {
    if es.Cons? {
      if !IsHole(es, i) { CanonIsCanonical(es.node.payload); }
      FillIsCanonical(NextItems(es, i), i + 1);
    }
  }

  lemma {:induction false} MembersAreCanonical(es: Entries)
    requires WellFormedEntries(es)
    ensures CanonMembers(CanonMembers(es)) == CanonMembers(es) && StripEntries(CanonMembers(es)) == CanonMembers(es)
    decreases es
  {
    if es.Cons? {
      CanonIsCanonical(es.node.payload);
      MembersAreCanonical(es.rest);
    }
  }
}
