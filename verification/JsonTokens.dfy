/** The token texts of what the two writers produce. */
module JsonTokens {
  import opened Basics
  import opened JsonValue
  import opened JsonLexer
  import opened JsonText
  import opened JsonGrammar
  import opened JsonSpelling
  import opened JsonSizes
  import opened JsonFastText
  import opened JsonStyledText

  /** The texts of all tokens up to the end of the stream. */
  function TokenTexts(doc: string, pos: nat): seq<string>
    requires pos <= |doc|
    decreases |doc| - pos
  {
    var t := ReadToken(doc, pos);
    if t.kind == EndOfStream then [] else [Text(doc, t)] + TokenTexts(doc, t.end)
  }

  /** The token texts a value is made of. */
  function Tokens(p: Payload): seq<string>
    decreases p
  {
    match p
    case NullValue => ["null"]
    case IntValue(i) => [IntegerText(i)]
    case UIntValue(u) => [IntegerText(u)]
    case StringValue(s) => [Quoted(s)]
    case BoolValue(b) => [if b then "true" else "false"]
    case ArrayValue(es) => ["["] + (if es.Nil? then ["]"] else ItemTokens(es, 0))
    case ObjectValue(es) => ["{"] + (if es.Nil? then ["}"] else MemberTokens(es))
    case _ => []
  }

  function ItemTokens(es: Entries, i: nat): seq<string>
    requires es.Cons?
    decreases es, if IsHole(es, i) then es.key.index - i else 0
  {
    if IsHole(es, i) then ["null"] + ([","] + ItemTokens(es, i + 1))
    else Tokens(es.node.payload) + (if es.rest.Nil? then ["]"] else [","] + ItemTokens(es.rest, i + 1))
  }

  function MemberTokens(es: Entries): seq<string>
    requires es.Cons?
    decreases es
  {
    [Quoted(KeyText(es.key))] + ([":"] + (Tokens(es.node.payload) + (if es.rest.Nil? then ["}"] else [","] + MemberTokens(es.rest))))
  }

  // ---------------------------------------------------------------- lexing what is spelled

  lemma ExpectedToken(doc: string, pos: nat, kind: TokenType, text: string)
    requires pos <= |doc| && Expect(doc, pos, kind, text).Some? && kind != EndOfStream
    ensures TokenTexts(doc, pos) == [text] + TokenTexts(doc, Expect(doc, pos, kind, text).value)
  {
  }

  lemma ScalarTokens(doc: string, pos: nat, p: Payload)
    requires pos <= |doc| && Spell(doc, pos, p).Some? && !p.ArrayValue? && !p.ObjectValue?
    ensures TokenTexts(doc, pos) == Tokens(p) + TokenTexts(doc, Spell(doc, pos, p).value)
  {
  }

  lemma {:induction false} SpelledTokens(doc: string, pos: nat, p: Payload)
    requires pos <= |doc| && Spell(doc, pos, p).Some?
    ensures TokenTexts(doc, pos) == Tokens(p) + TokenTexts(doc, Spell(doc, pos, p).value)
    decreases p
  {
    hide Expect, TokenTexts, SpellItems, SpellMembers, ItemTokens, MemberTokens;
    if p.ArrayValue? {
      var es := p.items;
      var open := Expect(doc, pos, ArrayBegin, "[").value;
      ExpectedToken(doc, pos, ArrayBegin, "[");
      var tail := if es.Nil? then ["]"] else ItemTokens(es, 0);
      if es.Nil? { ExpectedToken(doc, open, ArrayEnd, "]"); } else { SpelledItemTokens(doc, open, es, 0); }
      Assoc(["["], tail, TokenTexts(doc, Spell(doc, pos, p).value));
    } else if p.ObjectValue? {
      var es := p.members;
      var open := Expect(doc, pos, ObjectBegin, "{").value;
      ExpectedToken(doc, pos, ObjectBegin, "{");
      var tail := if es.Nil? then ["}"] else MemberTokens(es);
      if es.Nil? { ExpectedToken(doc, open, ObjectEnd, "}"); } else { SpelledMemberTokens(doc, open, es); }
      Assoc(["{"], tail, TokenTexts(doc, Spell(doc, pos, p).value));
    } else {
      ScalarTokens(doc, pos, p);
    }
  }

  /** The parts of a list of elements that is spelled. */
  lemma SpellItemsParts(doc: string, pos: nat, es: Entries, i: nat)
    requires pos <= |doc| && es.Cons? && SpellItems(doc, pos, es, i).Some?
    ensures var item := Spell(doc, pos, ItemAt(es, i)); var next := NextItems(es, i);
            && item.Some?
            && (next.Nil? ==> Expect(doc, item.value, ArrayEnd, "]") == SpellItems(doc, pos, es, i))
            && (next.Cons? ==>
                var comma := Expect(doc, item.value, ArraySeparator, ",");
                comma.Some? && SpellItems(doc, comma.value, next, i + 1) == SpellItems(doc, pos, es, i))
  {
    hide Expect;
  }

  lemma ItemTokensParts(es: Entries, i: nat)
    requires es.Cons?
    ensures ItemTokens(es, i) == Tokens(ItemAt(es, i)) +
            (if NextItems(es, i).Nil? then ["]"] else [","] + ItemTokens(NextItems(es, i), i + 1))
  {
  }

  lemma {:induction false} SpelledItemTokens(doc: string, pos: nat, es: Entries, i: nat)
    requires pos <= |doc| && es.Cons? && SpellItems(doc, pos, es, i).Some?
    ensures TokenTexts(doc, pos) == ItemTokens(es, i) + TokenTexts(doc, SpellItems(doc, pos, es, i).value)
    decreases es, if IsHole(es, i) then es.key.index - i else 0
  {
    hide Expect, TokenTexts, Spell, SpellItems, Tokens, ItemTokens;
    SpellItemsParts(doc, pos, es, i);
    ItemTokensParts(es, i);
    var next := NextItems(es, i);
    var item := Spell(doc, pos, ItemAt(es, i)).value;
    var after := TokenTexts(doc, SpellItems(doc, pos, es, i).value);
    if IsHole(es, i) { ScalarTokens(doc, pos, NullValue); } else { SpelledTokens(doc, pos, es.node.payload); }
    if next.Nil? {
      ExpectedToken(doc, item, ArrayEnd, "]");
      Assoc(Tokens(ItemAt(es, i)), ["]"], after);
    } else {
      ExpectedToken(doc, item, ArraySeparator, ",");
      SpelledItemTokens(doc, Expect(doc, item, ArraySeparator, ",").value, next, i + 1);
      Assoc([","], ItemTokens(next, i + 1), after);
      Assoc(Tokens(ItemAt(es, i)), [","] + ItemTokens(next, i + 1), after);
    }
  }

  lemma SpellMembersParts(doc: string, pos: nat, es: Entries)
    requires pos <= |doc| && es.Cons? && SpellMembers(doc, pos, es).Some?
    ensures var name := Expect(doc, pos, String, Quoted(KeyText(es.key)));
            && name.Some?
            && var colon := Expect(doc, name.value, MemberSeparator, ":");
               && colon.Some?
               && var item := Spell(doc, colon.value, es.node.payload);
                  && item.Some?
                  && (es.rest.Nil? ==> Expect(doc, item.value, ObjectEnd, "}") == SpellMembers(doc, pos, es))
                  && (es.rest.Cons? ==>
                      var comma := Expect(doc, item.value, ArraySeparator, ",");
                      comma.Some? && SpellMembers(doc, comma.value, es.rest) == SpellMembers(doc, pos, es))
  {
    hide Expect, Quoted;
  }

  lemma {:induction false} SpelledMemberTokens(doc: string, pos: nat, es: Entries)
    requires pos <= |doc| && es.Cons? && SpellMembers(doc, pos, es).Some?
    ensures TokenTexts(doc, pos) == MemberTokens(es) + TokenTexts(doc, SpellMembers(doc, pos, es).value)
    decreases es
  {
    hide Expect, TokenTexts, Spell, SpellMembers, Tokens, Quoted;
    SpellMembersParts(doc, pos, es);
    var quoted := Quoted(KeyText(es.key));
    var name := Expect(doc, pos, String, quoted).value;
    var colon := Expect(doc, name, MemberSeparator, ":").value;
    var item := Spell(doc, colon, es.node.payload).value;
    var value := Tokens(es.node.payload);
    var after := TokenTexts(doc, SpellMembers(doc, pos, es).value);
    ExpectedToken(doc, pos, String, quoted);
    ExpectedToken(doc, name, MemberSeparator, ":");
    SpelledTokens(doc, colon, es.node.payload);
    var tail := if es.rest.Nil? then ["}"] else [","] + MemberTokens(es.rest);
    if es.rest.Nil? {
      ExpectedToken(doc, item, ObjectEnd, "}");
    } else {
      ExpectedToken(doc, item, ArraySeparator, ",");
      SpelledMemberTokens(doc, Expect(doc, item, ArraySeparator, ",").value, es.rest);
      Assoc([","], MemberTokens(es.rest), after);
    }
    assert MemberTokens(es) == [quoted] + ([":"] + (value + tail));
    hide MemberTokens;
    Assoc(value, tail, after);
    Assoc([":"], value + tail, after);
    Assoc([quoted], [":"] + (value + tail), after);
  }

  /** Nothing but a line feed follows the value in either document. */
  lemma LastTokens(doc: string, pos: nat)
    requires pos + 1 == |doc| && doc[pos] == '\n'
    ensures TokenTexts(doc, pos) == []
  {
  }

  lemma FastTokens(show: ShowReal, p: Payload)
    requires Plain(p)
    ensures TokenTexts(FastDocument(show, p), 0) == Tokens(Crop(p, true))
  {
    hide Spell, FastText, Crop, Tokens, TokenTexts;
    FastDocumentSpells(show, p);
    SpelledTokens(FastDocument(show, p), 0, Crop(p, true));
    LastTokens(FastDocument(show, p), |FastText(show, p)|);
    assert Tokens(Crop(p, true)) + [] == Tokens(Crop(p, true));
  }

  lemma StyledDocumentSpells(show: ShowReal, p: Payload)
    requires Plain(p)
    ensures Spell(StyledDocument(show, p), 0, Shown(p)) == Some(|Styled(show, "", "", p)|)
  {
    StyledSpells(show, StyledDocument(show, p), "", "", p);
  }

  lemma StyledTokens(show: ShowReal, p: Payload)
    requires Plain(p)
    ensures TokenTexts(StyledDocument(show, p), 0) == Tokens(Shown(p))
  {
    hide Spell, Styled, Shown, Tokens, TokenTexts;
    StyledDocumentSpells(show, p);
    SpelledTokens(StyledDocument(show, p), 0, Shown(p));
    LastTokens(StyledDocument(show, p), |Styled(show, "", "", p)|);
    assert Tokens(Shown(p)) + [] == Tokens(Shown(p));
  }

  // ---------------------------------------------------------------- when cutting keys changes nothing

  /** No key contains a NUL. */
  predicate NulFreeKeys(p: Payload)
    decreases p
  {
    match p
    case ArrayValue(es) => NulFreeItems(es)
    case ObjectValue(es) => NulFreeMembers(es)
    case _ => true
  }

  predicate NulFreeItems(es: Entries)
    decreases es
  {
    es.Cons? ==> NulFreeKeys(es.node.payload) && NulFreeItems(es.rest)
  }

  predicate NulFreeMembers(es: Entries)
    decreases es
  {
    es.Cons? ==> '\0' !in KeyText(es.key) && NulFreeKeys(es.node.payload) && NulFreeMembers(es.rest)
  }

  lemma {:induction false} CStringWhole(s: string)
    ensures CString(s) == s <==> '\0' !in s
    ensures |CString(s)| <= |s|
    decreases s
  {
    if s != [] {
      assert s == [s[0]] + s[1..];
      CStringWhole(s[1..]);
      if s[0] != '\0' && CString(s) == s { assert CString(s[1..]) == CString(s)[1..] == s[1..]; }
    }
  }

  lemma QuotedInjective(s: string, t: string)
    ensures Quoted(s) == Quoted(t) <==> s == t
  {
    DecodeQuoted(s);
    DecodeQuoted(t);
  }

  lemma PartsEqual<T>(a: seq<T>, b: seq<T>, x: seq<T>, y: seq<T>)
    requires |a| == |b|
    ensures a + x == b + y <==> a == b && x == y
  {
    if a + x == b + y {
      assert a == (a + x)[..|a|] && b == (b + y)[..|a|];
      assert x == (a + x)[|a|..] && y == (b + y)[|a|..];
    }
  }

  /** Cutting keys leaves the tokens alone exactly when no key has a NUL to be cut at. */
  lemma {:induction false} CutTokens(p: Payload)
    ensures |Tokens(Cut(p))| == |Tokens(p)|
    ensures Tokens(Cut(p)) == Tokens(p) <==> NulFreeKeys(p)
    decreases p
  {
    hide ItemTokens, MemberTokens;
    if p.ArrayValue? && p.items.Cons? {
      CutItemTokens(p.items, 0);
      PartsEqual(["["], ["["], ItemTokens(CutItems(p.items), 0), ItemTokens(p.items, 0));
    } else if p.ObjectValue? && p.members.Cons? {
      CutMemberTokens(p.members);
      PartsEqual(["{"], ["{"], MemberTokens(CutMembers(p.members)), MemberTokens(p.members));
    }
  }

  lemma {:induction false} CutItemTokens(es: Entries, i: nat)
    requires es.Cons?
    ensures CutItems(es).Cons? && |ItemTokens(CutItems(es), i)| == |ItemTokens(es, i)|
    ensures ItemTokens(CutItems(es), i) == ItemTokens(es, i) <==> NulFreeItems(es)
    decreases es, if IsHole(es, i) then es.key.index - i else 0
  {
    hide Tokens, ItemTokens, Cut;
    var cut, next := CutItems(es), NextItems(es, i);
    CutItemsParts(es, i);
    ItemTokensParts(es, i);
    ItemTokensParts(cut, i);
    if IsHole(es, i) { NullTokens(); } else { CutTokens(es.node.payload); }
    var x, y := Tokens(ItemAt(cut, i)), Tokens(ItemAt(es, i));
    if next.Nil? {
      PartsEqual(x, y, ["]"], ["]"]);
    } else {
      CutItemTokens(next, i + 1);
      var a, b := ItemTokens(CutItems(next), i + 1), ItemTokens(next, i + 1);
      PartsEqual([","], [","], a, b);
      PartsEqual(x, y, [","] + a, [","] + b);
    }
  }

  lemma NullTokens()
    ensures Cut(NullValue) == NullValue
  {
  }

  lemma {:induction false} CutMemberTokens(es: Entries)
    requires es.Cons?
    ensures CutMembers(es).Cons? && |MemberTokens(CutMembers(es))| == |MemberTokens(es)|
    ensures MemberTokens(CutMembers(es)) == MemberTokens(es) <==> NulFreeMembers(es)
    decreases es
  {
    hide Tokens, Cut, Quoted, CString;
    var cut := CutMembers(es);
    CutMembersParts(es);
    var key := KeyText(es.key);
    CStringWhole(key);
    QuotedInjective(CString(key), key);
    CutTokens(es.node.payload);
    var x, y := Tokens(cut.node.payload), Tokens(es.node.payload);
    if es.rest.Cons? { CutMemberTokens(es.rest); }
    var a := if es.rest.Nil? then ["}"] else [","] + MemberTokens(cut.rest);
    var b := if es.rest.Nil? then ["}"] else [","] + MemberTokens(es.rest);
    assert MemberTokens(cut) == [Quoted(CString(key))] + ([":"] + (x + a));
    assert MemberTokens(es) == [Quoted(key)] + ([":"] + (y + b));
    if es.rest.Cons? { PartsEqual([","], [","], MemberTokens(cut.rest), MemberTokens(es.rest)); }
    hide MemberTokens;
    PartsEqual(x, y, a, b);
    PartsEqual([":"], [":"], x + a, y + b);
    PartsEqual([Quoted(CString(key))], [Quoted(key)], [":"] + (x + a), [":"] + (y + b));
  }

  // ---------------------------------------------------------------- when both loops cover the same arrays

  /** A value with every array that an int cannot count cropped has fewer tokens, unless there is no such array. */
  lemma {:induction false} CropTokens(p: Payload)
    requires WellFormed(p) && Plain(p)
    ensures |Tokens(Crop(p, true))| <= |Tokens(Crop(p, false))| && |Tokens(Crop(p, false))| >= 1
    ensures |Tokens(Crop(p, true))| == |Tokens(Crop(p, false))| ==> SizesFit(Crop(p, false), true)
    ensures SizesFit(Crop(p, false), true) ==> Crop(p, true) == Crop(p, false)
    decreases p
  {
    hide ItemTokens, MemberTokens, UIntSize, IntSize, SizesFit, Crop, Tokens;
    match p
    case ArrayValue(es) =>
      CropArrayTokens(es);
    case ObjectValue(es) =>
      CropObjectParts(es);
      if es.Cons? { CropMemberTokens(es); }
    case _ => CropScalar(p);
  }

  lemma CropScalar(p: Payload)
    requires Plain(p) && !p.ArrayValue? && !p.ObjectValue?
    ensures Crop(p, true) == Crop(p, false) == p && SizesFit(p, true) && |Tokens(p)| >= 1
  {
  }

  lemma CropObjectParts(es: Entries)
    ensures forall signed :: Crop(ObjectValue(es), signed) == ObjectValue(CropEntries(es, signed))
    ensures SizesFit(Crop(ObjectValue(es), false), true) == EntrySizesFit(CropEntries(es, false), true)
    ensures es.Nil? ==> Crop(ObjectValue(es), true) == Crop(ObjectValue(es), false) && |Tokens(Crop(ObjectValue(es), false))| == 2
    ensures es.Nil? ==> EntrySizesFit(CropEntries(es, false), true)
    ensures es.Cons? ==> forall signed ::
              var cropped := CropEntries(es, signed);
              cropped.Cons? && |Tokens(Crop(ObjectValue(es), signed))| == 1 + |MemberTokens(cropped)|
  {
    hide MemberTokens;
  }

  lemma {:induction false} CropArrayTokens(es: Entries)
    requires WellFormed(ArrayValue(es)) && PlainEntries(es)
    ensures var signed, unsigned := Crop(ArrayValue(es), true), Crop(ArrayValue(es), false);
            && |Tokens(signed)| <= |Tokens(unsigned)| && |Tokens(unsigned)| >= 1
            && (|Tokens(signed)| == |Tokens(unsigned)| ==> SizesFit(unsigned, true))
            && (SizesFit(unsigned, true) ==> signed == unsigned)
    decreases es, 1
  {
    hide Tokens, ItemTokens, Crop, CropEntries, Bound, ArraySize;
    CropArrayParts(es, true);
    CropArrayParts(es, false);
    CropArrayFits(es);
    if es.Cons? { CropItemTokens(es, 0); }
  }

  lemma CropArrayParts(es: Entries, signed: bool)
    requires WellFormed(ArrayValue(es))
    ensures var cropped := Crop(ArrayValue(es), signed);
            if 0 < ArraySize(es) <= Most(signed) then
              && es.Cons? && CropEntries(es, signed).Cons? && cropped == ArrayValue(CropEntries(es, signed))
              && |Tokens(cropped)| == 1 + |ItemTokens(CropEntries(es, signed), 0)|
            else
              cropped == ArrayValue(Nil) && |Tokens(cropped)| == 2
    ensures ArraySize(es) <= MAX_INDEX + 1 && (es.Cons? <==> ArraySize(es) > 0)
  {
    hide ItemTokens, ArraySize, WellFormedEntries;
    BoundIsSize(es, signed);
    ArraySizeBound(es);
    NoSize();
  }

  lemma NoSize()
    ensures ArraySize(Nil) == 0
  {
  }

  lemma CropArrayFits(es: Entries)
    requires WellFormed(ArrayValue(es))
    ensures ArraySize(es) <= MAX_INT ==> SizesFit(ArrayValue(CropEntries(es, false)), true) == EntrySizesFit(CropEntries(es, false), true)
    ensures ArraySize(es) > MAX_INT ==> !SizesFit(ArrayValue(CropEntries(es, false)), true)
    ensures SizesFit(ArrayValue(Nil), true)
  {
    CropEntriesKeepsForm(es, false);
    NoSize();
  }

  lemma {:induction false} CropItemTokens(es: Entries, i: nat)
    requires es.Cons? && WellFormedEntries(es) && PlainEntries(es)
    ensures CropEntries(es, true).Cons? && CropEntries(es, false).Cons?
    ensures |ItemTokens(CropEntries(es, true), i)| <= |ItemTokens(CropEntries(es, false), i)|
    ensures |ItemTokens(CropEntries(es, false), i)| >= 2
    ensures |ItemTokens(CropEntries(es, true), i)| == |ItemTokens(CropEntries(es, false), i)| ==> EntrySizesFit(CropEntries(es, false), true)
    ensures EntrySizesFit(CropEntries(es, false), true) ==> CropEntries(es, true) == CropEntries(es, false)
    decreases es, 0, if IsHole(es, i) then es.key.index - i else 0
  {
    hide Tokens, ItemTokens, Crop, SizesFit;
    var next := NextItems(es, i);
    CropParts(es, true, i);
    CropParts(es, false, i);
    ItemTokensParts(CropEntries(es, true), i);
    ItemTokensParts(CropEntries(es, false), i);
    if IsHole(es, i) { CropScalar(NullValue); } else { CropTokens(es.node.payload); }
    if next.Cons? { CropItemTokens(next, i + 1); }
  }

  lemma {:induction false} CropMemberTokens(es: Entries)
    requires es.Cons? && WellFormedEntries(es) && PlainEntries(es)
    ensures CropEntries(es, true).Cons? && CropEntries(es, false).Cons?
    ensures |MemberTokens(CropEntries(es, true))| <= |MemberTokens(CropEntries(es, false))|
    ensures |MemberTokens(CropEntries(es, true))| == |MemberTokens(CropEntries(es, false))| ==> EntrySizesFit(CropEntries(es, false), true)
    ensures EntrySizesFit(CropEntries(es, false), true) ==> CropEntries(es, true) == CropEntries(es, false)
    decreases es, 0
  {
    hide Tokens, Crop, SizesFit, Quoted;
    CropParts(es, true, 0);
    CropParts(es, false, 0);
    CropTokens(es.node.payload);
    if es.rest.Cons? { CropMemberTokens(es.rest); }
  }

  lemma {:induction false} FittingDoesNotThrow(p: Payload)
    requires WellFormed(p) && SizesFit(Crop(p, false), true)
    ensures !Throws(p)
    decreases p
  {
    match p
    case ArrayValue(es) =>
      BoundIsSize(es, true);
      BoundIsSize(es, false);
      CropEntriesKeepsForm(es, false);
      if UIntSize(es) > 0 { FittingEntriesDoNotThrow(es); }
    case ObjectValue(es) => FittingEntriesDoNotThrow(es);
    case _ =>
  }

  lemma {:induction false} FittingEntriesDoNotThrow(es: Entries)
    requires WellFormedEntries(es) && EntrySizesFit(CropEntries(es, false), true)
    ensures !ThrowsEntries(es)
    decreases es
  {
    if es.Cons? {
      FittingDoesNotThrow(es.node.payload);
      FittingEntriesDoNotThrow(es.rest);
    }
  }

  /**
   StyledWriter finishes with the token texts of FastWriter, in the same order, exactly when no key it
   shows contains a NUL and no array it shows is larger than an int.
   */
  lemma WritersAgree(show: ShowReal, p: Payload)
    requires WellFormed(p) && Plain(p)
    ensures !Throws(p) && TokenTexts(StyledDocument(show, p), 0) == TokenTexts(FastDocument(show, p), 0)
            <==> NulFreeKeys(Crop(p, false)) && SizesFit(Crop(p, false), true)
  {
    hide StyledDocument, FastDocument, Tokens, Crop, Cut, NulFreeKeys, SizesFit, Throws, TokenTexts;
    FastTokens(show, p);
    StyledTokens(show, p);
    CropTokens(p);
    CutTokens(Crop(p, false));
    if SizesFit(Crop(p, false), true) { FittingDoesNotThrow(p); }
  }

  lemma {:induction false} CutNothing(p: Payload)
    requires NulFreeKeys(p) && WellFormed(p)
    ensures Cut(p) == p
    decreases p
  {
    match p
    case ArrayValue(es) => CutNoItems(es);
    case ObjectValue(es) => CutNoMembers(es);
    case _ =>
  }

  lemma {:induction false} CutNoItems(es: Entries)
    requires NulFreeItems(es) && WellFormedEntries(es)
    ensures CutItems(es) == es
    decreases es
  {
    if es.Cons? {
      CutNothing(es.node.payload);
      CutNoItems(es.rest);
    }
  }

  lemma {:induction false} CutNoMembers(es: Entries)
    requires NulFreeMembers(es) && NameKeys(es) && WellFormedEntries(es)
    ensures CutMembers(es) == es
    decreases es
  {
    if es.Cons? {
      CStringWhole(KeyText(es.key));
      CutNothing(es.node.payload);
      CutNoMembers(es.rest);
    }
  }

  /**
   What StyledWriter wrote is read back as the value exactly when the reader's stack holds its nesting and
   no array is so large that its size() wraps; it is read back as what FastWriter wrote is, if all sizes fit an int.
   */
  lemma StyledThenParse(toDouble: ToDouble, show: ShowReal, p: Payload, root: Node)
    requires WellFormed(p) && Plain(p) && NulFreeKeys(Crop(p, false)) && (p.ArrayValue? || p.ObjectValue?)
    ensures var styled, fast := Parse(toDouble, StyledDocument(show, p), root), Parse(toDouble, FastDocument(show, p), root);
            && (styled.Parsed? ==> styled.ok)
            && (styled.Parsed? && Strip(styled.root.payload) == Canon(p) <==> Depth(p) <= 1000 && SizesFit(p, false))
            && (SizesFit(p, true) ==>
                && !Throws(p) && (styled == ParseThrown <==> fast == ParseThrown)
                && (styled.Parsed? ==> fast.ok && Strip(styled.root.payload) == Strip(fast.root.payload) == Canon(p)))
  {
    hide StyledDocument, FastDocument, Parse, Crop, Cut, Spell, Throws, Styled, NulFreeKeys;
    var shown := Crop(p, false);
    CropKeepsForm(p, false);
    CropKeepsPlain(p, false);
    CropKeepsKind(p, false);
    CutNothing(shown);
    StyledDocumentSpells(show, p);
    SpelledDocument(toDouble, StyledDocument(show, p), shown, root);
    CropShows(p, false);
    if SizesFit(p, false) { CropNothing(p, false); }
    WriteThenParse(toDouble, show, p, root);
    if SizesFit(p, true) {
      SmallerFits(p);
      CropNothing(p, false);
      FittingDoesNotThrow(p);
    }
  }

  lemma CropKeepsKind(p: Payload, signed: bool)
    ensures Crop(p, signed).ArrayValue? == p.ArrayValue? && Crop(p, signed).ObjectValue? == p.ObjectValue?
  {
  }

  lemma {:induction false} SmallerFits(p: Payload)
    requires SizesFit(p, true)
    ensures SizesFit(p, false)
    decreases p
  {
    match p
    case ArrayValue(es) => SmallerEntriesFit(es);
    case ObjectValue(es) => SmallerEntriesFit(es);
    case _ =>
  }

  lemma {:induction false} SmallerEntriesFit(es: Entries)
    requires EntrySizesFit(es, true)
    ensures EntrySizesFit(es, false)
    decreases es
  {
    if es.Cons? {
      SmallerFits(es.node.payload);
      SmallerEntriesFit(es.rest);
    }
  }
}
