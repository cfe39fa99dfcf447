/**
 The text StyledWriter produces for values without comments, and that it spells the value
 written, except that a key is cut at its first NUL and an array whose size() wraps is empty.
 */
module JsonStyledText {
  import opened Basics
  import opened JsonValue
  import opened JsonLexer
  import opened JsonText
  import opened JsonGrammar
  import opened JsonSpelling
  import opened JsonSizes
  import opened JsonFastText

  const RIGHT_MARGIN := 74
  const INDENT := "   "

  /** The part of a byte string that a C string sees. */
  function CString(s: string): string {
    if s == [] || s[0] == '\0' then [] else [s[0]] + CString(s[1..])
  }

  /** writeIndent: the document is put at the start of an indented line, unless it ends in a space. */
  function Indented(d: string, ind: string): string {
    if d == "" then ind
    else if d[|d| - 1] == ' ' then d
    else if d[|d| - 1] == '\n' then d + ind
    else d + "\n" + ind
  }

  /** Values that writeValue pushes as a single text. */
  predicate IsLeaf(p: Payload) {
    match p
    case ArrayValue(es) => UIntSize(es) == 0
    case ObjectValue(es) => es.Nil?
    case _ => true
  }

  predicate AllLeaves(es: Entries) { es.Cons? ==> IsLeaf(es.node.payload) && AllLeaves(es.rest) }

  /** The total length of the element texts from index `i` on. */
  function TextLength(show: ShowReal, es: Entries, i: nat): nat
    decreases es, if IsHole(es, i) then es.key.index - i else 0
  {
    if es.Nil? then 0 else |FastText(show, ItemAt(es, i))| + TextLength(show, NextItems(es, i), i + 1)
  }

  /** size * 3 >= rightMargin_, in an int. */
  predicate ManyItems(es: Entries) { ToInt32(IntSize(es) * 3) >= RIGHT_MARGIN }

  /** isMultineArray, for a nonempty array on which it does not throw. */
  predicate Multiline(show: ShowReal, es: Entries) {
    || ManyItems(es)
    || !AllLeaves(es)
    || ToInt32(4 + (IntSize(es) - 1) * 2 + TextLength(show, es, 0)) >= RIGHT_MARGIN
  }

  /** The document after a value has been written at indentation `ind`. */
  function Styled(show: ShowReal, d: string, ind: string, p: Payload): string
    decreases p
  {
    match p
    case ArrayValue(es) =>
      if UIntSize(es) == 0 then d + "[]"
      else if Multiline(show, es) then StyledItems(show, Indented(d, ind) + "[", ind, es, 0)
      else d + "[ " + InlineItems(show, es, 0)
    case ObjectValue(es) =>
      if es.Nil? then d + "{}" else StyledMembers(show, Indented(d, ind) + "{", ind, es)
    case _ => d + FastText(show, p)
  }

  /** One element a line, and the closing bracket on its own. */
  function StyledItems(show: ShowReal, d: string, ind: string, es: Entries, i: nat): string
    requires es.Cons?
    decreases es, if IsHole(es, i) then es.key.index - i else 0
  {
    var at := Indented(d, ind + INDENT);
    if IsHole(es, i) then StyledItems(show, at + "null" + ",", ind, es, i + 1)
    else
      var done := Styled(show, at, ind + INDENT, es.node.payload);
      if es.rest.Nil? then Indented(done, ind) + "]" else StyledItems(show, done + ",", ind, es.rest, i + 1)
  }

  function InlineItems(show: ShowReal, es: Entries, i: nat): string
    requires es.Cons?
    decreases es, if IsHole(es, i) then es.key.index - i else 0
  {
    FastText(show, ItemAt(es, i)) +
    (if NextItems(es, i).Nil? then " ]" else ", " + InlineItems(show, NextItems(es, i), i + 1))
  }

  function StyledMembers(show: ShowReal, d: string, ind: string, es: Entries): string
    requires es.Cons?
    decreases es
  {
    var named := Indented(d, ind + INDENT) + Quoted(CString(KeyText(es.key))) + " : ";
    var done := Styled(show, named, ind + INDENT, es.node.payload);
    if es.rest.Nil? then Indented(done, ind) + "}" else StyledMembers(show, done + ",", ind, es.rest)
  }

  function StyledDocument(show: ShowReal, p: Payload): string { Styled(show, "", "", p) + "\n" }

  /**
   Where writing throws: at an array whose size is negative as an int, unless three times that
   size, wrapped, is at the margin.  Then reserve() is asked for the size converted to size_t.
   */
  predicate Throws(p: Payload)
    decreases p
  {
    match p
    case ArrayValue(es) => UIntSize(es) > 0 && (Unreservable(es) || ThrowsEntries(es))
    case ObjectValue(es) => ThrowsEntries(es)
    case _ => false
  }

  predicate ThrowsEntries(es: Entries)
    decreases es
  {
    es.Cons? && (Throws(es.node.payload) || ThrowsEntries(es.rest))
  }

  predicate Unreservable(es: Entries) { IntSize(es) < 0 && !ManyItems(es) }

  /** At the array whose one entry has index 2^31 - 1, reserve() gets a size of -2^31. */
  lemma LoneEntryThrows()
    ensures Throws(LONE)
  {
  }

  /** Every key cut at its first NUL. */
  function Cut(p: Payload): Payload
    decreases p
  {
    match p
    case ArrayValue(es) => ArrayValue(CutItems(es))
    case ObjectValue(es) => ObjectValue(CutMembers(es))
    case _ => p
  }

  function CutItems(es: Entries): Entries
    decreases es
  {
    if es.Nil? then Nil else Cons(es.key, es.node.(payload := Cut(es.node.payload)), CutItems(es.rest))
  }

  function CutMembers(es: Entries): Entries
    decreases es
  {
    if es.Nil? then Nil
    else Cons(Name(CString(KeyText(es.key))), es.node.(payload := Cut(es.node.payload)), CutMembers(es.rest))
  }

  /** The value StyledWriter shows. */
  function Shown(p: Payload): Payload { Cut(Crop(p, false)) }

  function ShownItems(es: Entries): Entries { CutItems(CropEntries(es, false)) }

  function ShownMembers(es: Entries): Entries { CutMembers(CropEntries(es, false)) }

  // ---------------------------------------------------------------- white space

  predicate AllSpaces(s: string) { forall i :: 0 <= i < |s| ==> IsSpace(s[i]) }

  /** Only white space between the two positions. */
  ghost predicate Blank(doc: string, a: nat, b: nat) {
    a <= b <= |doc| && forall i :: a <= i < b ==> IsSpace(doc[i])
  }

  lemma {:induction false} BlankSkips(doc: string, a: nat, b: nat)
    requires Blank(doc, a, b)
    ensures SkipSpaces(doc, a) == SkipSpaces(doc, b)
    decreases b - a
  {
    if a < b { BlankSkips(doc, a + 1, b); }
  }

  lemma BlankExpect(doc: string, a: nat, b: nat, kind: TokenType, text: string)
    requires Blank(doc, a, b)
    ensures Expect(doc, a, kind, text) == Expect(doc, b, kind, text)
  {
    BlankSkips(doc, a, b);
    hide TokenAt, SkipSpaces;
  }

  lemma BlankSpell(doc: string, a: nat, b: nat, p: Payload)
    requires Blank(doc, a, b)
    ensures Spell(doc, a, p) == Spell(doc, b, p)
  {
    BlankSkips(doc, a, b);
    hide TokenAt, SkipSpaces, Text;
  }

  lemma IndentedBlank(doc: string, d: string, ind: string)
    requires AllSpaces(ind) && Indented(d, ind) <= doc
    ensures d <= Indented(d, ind) && Blank(doc, |d|, |Indented(d, ind)|)
  {
  }

  /** A document that ends in `s` before `rest`. */
  lemma AppendedOccurs(doc: string, d: string, s: string)
    requires d + s <= doc
    ensures Occurs(doc, |d|, s) && d <= doc
  {
  }

  // ---------------------------------------------------------------- assembling a spelling

  lemma SpellItemsBuild(doc: string, pos: nat, es: Entries, i: nat, item: nat, end: nat)
    requires pos <= |doc| && item <= |doc| && es.Cons?
    requires Spell(doc, pos, ItemAt(es, i)) == Some(item)
    requires var next := NextItems(es, i);
             if next.Nil? then Expect(doc, item, ArrayEnd, "]") == Some(end)
             else var comma := Expect(doc, item, ArraySeparator, ",");
                  comma.Some? && SpellItems(doc, comma.value, next, i + 1) == Some(end)
    ensures SpellItems(doc, pos, es, i) == Some(end)
  {
    hide Expect;
  }

  lemma SpellMembersBuild(doc: string, pos: nat, es: Entries, name: nat, colon: nat, item: nat, end: nat)
    requires pos <= |doc| && name <= |doc| && colon <= |doc| && item <= |doc| && es.Cons?
    requires Expect(doc, pos, String, Quoted(KeyText(es.key))) == Some(name)
    requires Expect(doc, name, MemberSeparator, ":") == Some(colon)
    requires Spell(doc, colon, es.node.payload) == Some(item)
    requires if es.rest.Nil? then Expect(doc, item, ObjectEnd, "}") == Some(end)
             else var comma := Expect(doc, item, ArraySeparator, ",");
                  comma.Some? && SpellMembers(doc, comma.value, es.rest) == Some(end)
    ensures SpellMembers(doc, pos, es) == Some(end)
  {
    hide Expect, Quoted;
  }

  lemma CutItemsParts(es: Entries, i: nat)
    requires es.Cons?
    ensures CutItems(es).Cons? && ItemAt(CutItems(es), i) == Cut(ItemAt(es, i)) && NextItems(CutItems(es), i) == CutItems(NextItems(es, i))
  {
  }

  lemma CutMembersParts(es: Entries)
    requires es.Cons?
    ensures CutMembers(es).Cons? && CutMembers(es).rest == CutMembers(es.rest) && (CutMembers(es.rest).Nil? <==> es.rest.Nil?)
    ensures KeyText(CutMembers(es).key) == CString(KeyText(es.key)) && CutMembers(es).node.payload == Cut(es.node.payload)
  {
  }

  lemma ShownItemsParts(es: Entries, i: nat)
    requires es.Cons?
    ensures var shown := ShownItems(es);
            && shown.Cons? && ItemAt(shown, i) == Shown(ItemAt(es, i)) && NextItems(shown, i) == ShownItems(NextItems(es, i))
            && (ShownItems(NextItems(es, i)).Nil? <==> NextItems(es, i).Nil?)
  {
    CropParts(es, false, i);
    CutItemsParts(CropEntries(es, false), i);
  }

  lemma ShownMembersParts(es: Entries)
    requires es.Cons?
    ensures var shown := ShownMembers(es);
            && shown.Cons? && shown.rest == ShownMembers(es.rest) && (ShownMembers(es.rest).Nil? <==> es.rest.Nil?)
            && KeyText(shown.key) == CString(KeyText(es.key)) && shown.node.payload == Shown(es.node.payload)
  {
    CropParts(es, false, 0);
    CutMembersParts(CropEntries(es, false));
  }

  lemma ShownContainer(es: Entries)
    ensures UIntSize(es) > 0 ==> Shown(ArrayValue(es)) == ArrayValue(ShownItems(es))
    ensures Shown(ObjectValue(es)) == ObjectValue(ShownMembers(es))
  {
  }

  /** Both writers show a leaf alike. */
  lemma LeafShown(p: Payload)
    requires IsLeaf(p)
    ensures Shown(p) == Crop(p, true)
  {
  }

  // ---------------------------------------------------------------- a document only grows

  lemma PrefixTrans(a: string, b: string, c: string)
    requires a <= b <= c
    ensures a <= c
  {
  }

  lemma IndentedGrows(d: string, ind: string)
    ensures d <= Indented(d, ind)
  {
  }

  lemma {:induction false} StyledGrows(show: ShowReal, d: string, ind: string, p: Payload)
    ensures d <= Styled(show, d, ind, p)
    decreases p
  {
    hide Multiline, Indented, StyledItems, StyledMembers, InlineItems;
    IndentedGrows(d, ind);
    if p.ArrayValue? && UIntSize(p.items) > 0 && Multiline(show, p.items) {
      StyledItemsGrow(show, Indented(d, ind) + "[", ind, p.items, 0);
    } else if p.ObjectValue? && p.members.Cons? {
      StyledMembersGrow(show, Indented(d, ind) + "{", ind, p.members);
    }
  }

  lemma {:induction false} StyledItemsGrow(show: ShowReal, d: string, ind: string, es: Entries, i: nat)
    requires es.Cons?
    ensures d <= StyledItems(show, d, ind, es, i)
    decreases es, if IsHole(es, i) then es.key.index - i else 0
  {
    hide Styled, Indented;
    var at := Indented(d, ind + INDENT);
    IndentedGrows(d, ind + INDENT);
    if IsHole(es, i) {
      StyledItemsGrow(show, at + "null" + ",", ind, es, i + 1);
    } else {
      var done := Styled(show, at, ind + INDENT, es.node.payload);
      StyledGrows(show, at, ind + INDENT, es.node.payload);
      IndentedGrows(done, ind);
      if es.rest.Cons? { StyledItemsGrow(show, done + ",", ind, es.rest, i + 1); }
    }
  }

  lemma {:induction false} StyledMembersGrow(show: ShowReal, d: string, ind: string, es: Entries)
    requires es.Cons?
    ensures d <= StyledMembers(show, d, ind, es)
    decreases es
  {
    hide Styled, Indented, Quoted;
    var named := Indented(d, ind + INDENT) + Quoted(CString(KeyText(es.key))) + " : ";
    IndentedGrows(d, ind + INDENT);
    var done := Styled(show, named, ind + INDENT, es.node.payload);
    StyledGrows(show, named, ind + INDENT, es.node.payload);
    IndentedGrows(done, ind);
    if es.rest.Cons? { StyledMembersGrow(show, done + ",", ind, es.rest); }
  }

  // ---------------------------------------------------------------- the text spells the cut value

  lemma DeeperSpaces(ind: string)
    requires AllSpaces(ind)
    ensures AllSpaces(ind + INDENT)
  {
  }

  /** After a value comes a separator, or white space and then a closing bracket: either ends a number. */
  lemma SeparatorFollows(doc: string, done: string, c: char)
    requires done + [c] <= doc && (c == ',' || c == ']' || c == '}')
    ensures done <= doc && Occurs(doc, |done|, [c]) && Stops(doc, |done|)
  {
  }

  lemma ClosingFollows(doc: string, done: string, ind: string, kind: TokenType, c: char)
    requires AllSpaces(ind) && Indented(done, ind) + [c] <= doc
    requires IsPunctuation(kind, c) && (c == ']' || c == '}')
    ensures done <= doc && Stops(doc, |done|)
    ensures Expect(doc, |done|, kind, [c]) == Some(|Indented(done, ind)| + 1)
  {
    var x := Indented(done, ind);
    IndentedGrows(done, ind);
    SeparatorFollows(doc, x, c);
    IndentedBlank(doc, done, ind);
    BlankExpect(doc, |done|, |x|, kind, [c]);
    PunctuationToken(doc, |x|, kind, c);
    PrefixTrans(done, x, doc);
    if |done| < |x| { assert IsSpace(doc[|done|]); }
  }

  lemma {:induction false} StyledSpells(show: ShowReal, doc: string, d: string, ind: string, p: Payload)
    requires Plain(p) && AllSpaces(ind)
    requires Styled(show, d, ind, p) <= doc && Stops(doc, |Styled(show, d, ind, p)|)
    ensures d <= doc && Spell(doc, |d|, Shown(p)) == Some(|Styled(show, d, ind, p)|)
    decreases p
  {
    hide Spell, Shown, AllSpaces, Stops, Styled;
    if IsLeaf(p) {
      LeafSpells(show, doc, d, ind, p);
    } else if p.ArrayValue? {
      StyledArraySpells(show, doc, d, ind, p.items);
    } else {
      StyledObjectSpells(show, doc, d, ind, p.members);
    }
  }

  lemma {:induction false} StyledArraySpells(show: ShowReal, doc: string, d: string, ind: string, es: Entries)
    requires UIntSize(es) > 0 && PlainEntries(es) && AllSpaces(ind)
    requires Styled(show, d, ind, ArrayValue(es)) <= doc
    ensures d <= doc && Spell(doc, |d|, Shown(ArrayValue(es))) == Some(|Styled(show, d, ind, ArrayValue(es))|)
    decreases es, 1
  {
    hide Multiline, Indented, StyledItems, InlineItems, Expect, SpellItems, Shown, ShownItems, FastText, AllLeaves;
    StyledArrayForms(show, d, ind, es);
    hide Styled;
    StyledGrows(show, d, ind, ArrayValue(es));
    PrefixTrans(d, Styled(show, d, ind, ArrayValue(es)), doc);
    if Multiline(show, es) {
      OpeningSpells(doc, d, ind, ArrayBegin, '[', Styled(show, d, ind, ArrayValue(es))) by {
        StyledItemsGrow(show, Indented(d, ind) + "[", ind, es, 0);
      }
      StyledItemsSpell(show, doc, Indented(d, ind) + "[", ind, es, 0);
      ShownContainer(es);
      ShownItemsParts(es, 0);
    } else {
      OneLineLeaves(show, es);
      InlineSpells(show, doc, d, es);
    }
  }

  lemma {:induction false} StyledObjectSpells(show: ShowReal, doc: string, d: string, ind: string, es: Entries)
    requires es.Cons? && PlainEntries(es) && AllSpaces(ind)
    requires Styled(show, d, ind, ObjectValue(es)) <= doc
    ensures d <= doc && Spell(doc, |d|, Shown(ObjectValue(es))) == Some(|Styled(show, d, ind, ObjectValue(es))|)
    decreases es, 1
  {
    hide Indented, StyledMembers, Expect, SpellMembers, Shown, ShownMembers;
    StyledObjectForm(show, d, ind, es);
    hide Styled;
    StyledGrows(show, d, ind, ObjectValue(es));
    PrefixTrans(d, Styled(show, d, ind, ObjectValue(es)), doc);
    OpeningSpells(doc, d, ind, ObjectBegin, '{', Styled(show, d, ind, ObjectValue(es))) by {
      StyledMembersGrow(show, Indented(d, ind) + "{", ind, es);
    }
    StyledMembersSpell(show, doc, Indented(d, ind) + "{", ind, es);
    ShownContainer(es);
    ShownMembersParts(es);
  }

  lemma OneLineLeaves(show: ShowReal, es: Entries)
    requires !Multiline(show, es)
    ensures AllLeaves(es)
  {
  }

  lemma StyledArrayForms(show: ShowReal, d: string, ind: string, es: Entries)
    requires UIntSize(es) > 0
    ensures Styled(show, d, ind, ArrayValue(es)) ==
            if Multiline(show, es) then StyledItems(show, Indented(d, ind) + "[", ind, es, 0) else d + "[ " + InlineItems(show, es, 0)
  {
    hide StyledItems, InlineItems, Multiline, Indented, UIntSize;
  }

  lemma StyledObjectForm(show: ShowReal, d: string, ind: string, es: Entries)
    requires es.Cons?
    ensures Styled(show, d, ind, ObjectValue(es)) == StyledMembers(show, Indented(d, ind) + "{", ind, es)
  {
    hide StyledMembers, Indented;
  }

  lemma LeafStyled(show: ShowReal, d: string, ind: string, p: Payload)
    requires IsLeaf(p)
    ensures Styled(show, d, ind, p) == d + FastText(show, p)
  {
  }

  lemma LeafSpells(show: ShowReal, doc: string, d: string, ind: string, p: Payload)
    requires Plain(p) && IsLeaf(p)
    requires Styled(show, d, ind, p) <= doc && Stops(doc, |Styled(show, d, ind, p)|)
    ensures d <= doc && Spell(doc, |d|, Shown(p)) == Some(|Styled(show, d, ind, p)|)
  {
    hide Spell, Stops, FastText, Crop, Shown;
    LeafShown(p);
    LeafStyled(show, d, ind, p);
    hide Styled;
    AppendedOccurs(doc, d, FastText(show, p));
    FastSpells(show, doc, |d|, p);
  }

  lemma OpeningSpells(doc: string, d: string, ind: string, kind: TokenType, c: char, whole: string)
    requires AllSpaces(ind) && IsPunctuation(kind, c)
    requires Indented(d, ind) + [c] <= whole <= doc
    ensures d <= doc && Expect(doc, |d|, kind, [c]) == Some(|Indented(d, ind) + [c]|)
  {
    var x := Indented(d, ind);
    PrefixTrans(x + [c], whole, doc);
    AppendedOccurs(doc, x, [c]);
    IndentedBlank(doc, d, ind);
    BlankExpect(doc, |d|, |x|, kind, [c]);
    PunctuationToken(doc, |x|, kind, c);
    PrefixTrans(d, x, doc);
  }

  lemma {:induction false} StyledItemsSpell(show: ShowReal, doc: string, d: string, ind: string, es: Entries, i: nat)
    requires es.Cons? && PlainEntries(es) && AllSpaces(ind)
    requires StyledItems(show, d, ind, es, i) <= doc
    ensures d <= doc && SpellItems(doc, |d|, ShownItems(es), i) == Some(|StyledItems(show, d, ind, es, i)|)
    decreases es, 0, if IsHole(es, i) then es.key.index - i else 0
  {
    hide Styled, Indented, Expect, Spell, SpellItems, Occurs, Stops, Shown, ShownItems, ShownMembers, AllSpaces;
    var whole, deeper := StyledItems(show, d, ind, es, i), ind + INDENT;
    var at, next := Indented(d, deeper), NextItems(es, i);
    DeeperSpaces(ind);
    var done := if IsHole(es, i) then at + "null" else Styled(show, at, deeper, es.node.payload);
    if next.Cons? { StyledItemsGrow(show, done + ",", ind, next, i + 1); }
    assert at <= done && done <= whole by {
      if !IsHole(es, i) { StyledGrows(show, at, deeper, es.node.payload); }
      IndentedGrows(done, ind);
    }
    IndentedGrows(d, deeper);
    PrefixTrans(at, done, whole);
    PrefixTrans(at, whole, doc);
    PrefixTrans(d, at, doc);
    if next.Nil? {
      ClosingFollows(doc, done, ind, ArrayEnd, ']');
    } else {
      PrefixTrans(done + ",", whole, doc);
      SeparatorFollows(doc, done, ',');
      PunctuationToken(doc, |done|, ArraySeparator, ',');
      StyledItemsSpell(show, doc, done + ",", ind, next, i + 1);
    }
    if IsHole(es, i) {
      PrefixTrans(done, whole, doc);
      AppendedOccurs(doc, at, "null");
      NullSpells(doc, |at|);
    } else {
      StyledSpells(show, doc, at, deeper, es.node.payload);
    }
    IndentedBlank(doc, d, deeper);
    ShownItemsParts(es, i);
    BlankSpell(doc, |d|, |at|, Shown(ItemAt(es, i)));
    SpellItemsBuild(doc, |d|, ShownItems(es), i, |done|, |whole|);
  }

  lemma NullSpells(doc: string, pos: nat)
    requires Occurs(doc, pos, "null")
    ensures pos + 4 <= |doc| && Spell(doc, pos, Shown(NullValue)) == Some(pos + 4)
  {
    LiteralToken(doc, pos, Null, "null");
  }

  lemma {:induction false} StyledMembersSpell(show: ShowReal, doc: string, d: string, ind: string, es: Entries)
    requires es.Cons? && PlainEntries(es) && AllSpaces(ind)
    requires StyledMembers(show, d, ind, es) <= doc
    ensures d <= doc && SpellMembers(doc, |d|, ShownMembers(es)) == Some(|StyledMembers(show, d, ind, es)|)
    decreases es, 0
  {
    hide Styled, Indented, Expect, Spell, SpellMembers, Occurs, Stops, Shown, ShownItems, ShownMembers, AllSpaces, Quoted, CString;
    var whole, deeper := StyledMembers(show, d, ind, es), ind + INDENT;
    var at, key := Indented(d, deeper), CString(KeyText(es.key));
    var named := at + Quoted(key) + " : ";
    var done := Styled(show, named, deeper, es.node.payload);
    DeeperSpaces(ind);
    if es.rest.Cons? { StyledMembersGrow(show, done + ",", ind, es.rest); }
    IndentedGrows(done, ind);
    assert done <= whole;
    StyledGrows(show, named, deeper, es.node.payload);
    IndentedGrows(d, deeper);
    PrefixTrans(named, done, whole);
    PrefixTrans(named, whole, doc);
    NameSpells(doc, d, deeper, key);
    if es.rest.Nil? {
      ClosingFollows(doc, done, ind, ObjectEnd, '}');
    } else {
      PrefixTrans(done + ",", whole, doc);
      SeparatorFollows(doc, done, ',');
      PunctuationToken(doc, |done|, ArraySeparator, ',');
      StyledMembersSpell(show, doc, done + ",", ind, es.rest);
    }
    StyledSpells(show, doc, named, deeper, es.node.payload);
    var quote := |at| + |Quoted(key)|;
    BlankSpell(doc, quote + 2, |named|, Shown(es.node.payload));
    ShownMembersParts(es);
    SpellMembersBuild(doc, |d|, ShownMembers(es), quote, quote + 2, |done|, |whole|);
  }

  /** The indented name of a member and its colon. */
  lemma NameSpells(doc: string, d: string, ind: string, key: string)
    requires AllSpaces(ind) && Indented(d, ind) + Quoted(key) + " : " <= doc
    ensures var quote := |Indented(d, ind)| + |Quoted(key)|;
            && d <= doc && quote + 3 <= |doc|
            && Expect(doc, |d|, String, Quoted(key)) == Some(quote)
            && Expect(doc, quote, MemberSeparator, ":") == Some(quote + 2)
            && Blank(doc, quote + 2, quote + 3)
  {
    hide Quoted, Expect;
    var at := Indented(d, ind);
    IndentedGrows(d, ind);
    Assoc(at, Quoted(key), " : ");
    AppendedOccurs(doc, at, Quoted(key) + " : ");
    PrefixTrans(d, at, doc);
    OccursParts(doc, |at|, Quoted(key), " : ");
    StringToken(doc, |at|, key);
    IndentedBlank(doc, d, ind);
    BlankExpect(doc, |d|, |at|, String, Quoted(key));
    var quote := |at| + |Quoted(key)|;
    OccursAt(doc, quote, " : ", 0);
    OccursAt(doc, quote, " : ", 1);
    OccursAt(doc, quote, " : ", 2);
    BlankExpect(doc, quote, quote + 1, MemberSeparator, ":");
    OccursOne(doc, quote + 1);
    PunctuationToken(doc, quote + 1, MemberSeparator, ':');
  }

  lemma OccursOne(doc: string, pos: nat)
    requires pos < |doc|
    ensures Occurs(doc, pos, [doc[pos]])
  {
  }

  /** The single-line form. */
  lemma InlineSpells(show: ShowReal, doc: string, d: string, es: Entries)
    requires UIntSize(es) > 0 && PlainEntries(es) && AllLeaves(es)
    requires d + "[ " + InlineItems(show, es, 0) <= doc
    ensures d <= doc && Spell(doc, |d|, Shown(ArrayValue(es))) == Some(|d + "[ " + InlineItems(show, es, 0)|)
  {
    hide InlineItems, Expect, SpellItems;
    Assoc(d, "[ ", InlineItems(show, es, 0));
    AppendedOccurs(doc, d, "[ " + InlineItems(show, es, 0));
    OccursParts(doc, |d|, "[ ", InlineItems(show, es, 0));
    OccursAt(doc, |d|, "[ ", 0);
    OccursAt(doc, |d|, "[ ", 1);
    assert doc[|d|..|d| + 1] == "[";
    PunctuationToken(doc, |d|, ArrayBegin, '[');
    InlineItemsSpell(show, doc, |d| + 1, |d| + 2, es, 0);
    ShownItemsParts(es, 0);
    ShownContainer(es);
  }

  lemma {:induction false} InlineItemsSpell(show: ShowReal, doc: string, from: nat, pos: nat, es: Entries, i: nat)
    requires es.Cons? && PlainEntries(es) && AllLeaves(es) && Blank(doc, from, pos)
    requires Occurs(doc, pos, InlineItems(show, es, i))
    ensures pos + |InlineItems(show, es, i)| <= |doc|
    ensures SpellItems(doc, from, ShownItems(es), i) == Some(pos + |InlineItems(show, es, i)|)
    decreases es, if IsHole(es, i) then es.key.index - i else 0
  {
    hide FastText, Expect, Spell, SpellItems, Occurs, Stops, Shown, ShownItems, Blank;
    BlankBounds(doc, from, pos);
    OccursFits(doc, pos, InlineItems(show, es, i));
    var item, next := FastText(show, ItemAt(es, i)), NextItems(es, i);
    var sep := if next.Nil? then " ]" else ", ";
    var tail := if next.Nil? then "" else InlineItems(show, next, i + 1);
    assert InlineItems(show, es, i) == item + (sep + tail);
    OccursParts(doc, pos, item, sep + tail);
    OccursParts(doc, pos + |item|, sep, tail);
    SeparatorSpells(doc, pos + |item|, next.Nil?);
    FastSpells(show, doc, pos, ItemAt(es, i));
    LeafShown(ItemAt(es, i));
    BlankSpell(doc, from, pos, Shown(ItemAt(es, i)));
    ShownItemsParts(es, i);
    if next.Cons? { InlineItemsSpell(show, doc, pos + |item| + 1, pos + |item| + 2, next, i + 1); }
    SpellItemsBuild(doc, from, ShownItems(es), i, pos + |item|, pos + |InlineItems(show, es, i)|);
  }

  lemma BlankBounds(doc: string, a: nat, b: nat)
    requires Blank(doc, a, b)
    ensures a <= b <= |doc|
  {
  }

  lemma SeparatorSpells(doc: string, pos: nat, last: bool)
    requires Occurs(doc, pos, if last then " ]" else ", ")
    ensures pos + 2 <= |doc| && Stops(doc, pos)
    ensures last ==> Expect(doc, pos, ArrayEnd, "]") == Some(pos + 2)
    ensures !last ==> Expect(doc, pos, ArraySeparator, ",") == Some(pos + 1) && Blank(doc, pos + 1, pos + 2)
  {
    var sep := if last then " ]" else ", ";
    OccursAt(doc, pos, sep, 0);
    OccursAt(doc, pos, sep, 1);
    hide Expect;
    if last {
      assert doc[pos + 1..pos + 2] == "]";
      BlankExpect(doc, pos, pos + 1, ArrayEnd, "]");
      PunctuationToken(doc, pos + 1, ArrayEnd, ']');
    } else {
      assert doc[pos..pos + 1] == ",";
      PunctuationToken(doc, pos, ArraySeparator, ',');
    }
  }
}
