/**
 When a document spells a value: its tokens, from a position on, are those of the value,
 whatever white space stands between them.  Both writers spell; the reader reads what is spelled.
 */
module JsonSpelling {
  import opened Basics
  import opened JsonValue
  import opened JsonLexer
  import opened JsonText
  import opened JsonGrammar

  // ---------------------------------------------------------------- spelling

  function Expect(doc: string, pos: nat, kind: TokenType, text: string): (end: Option<nat>)
    requires pos <= |doc|
    ensures end.Some? ==> pos <= end.value <= |doc|
  {
    var t := ReadToken(doc, pos);
    if t.kind == kind && Text(doc, t) == text then Some(t.end) else None
  }

  predicate IsHole(es: Entries, i: nat) { es.Cons? && es.key.Index? && i < es.key.index }

  function KeyText(key: CZString): string { if key.Name? then key.str else "" }

  /** Where the value that the document spells at `pos` ends; None when it spells something else. */
  function Spell(doc: string, pos: nat, p: Payload): (end: Option<nat>)
    requires pos <= |doc|
    ensures end.Some? ==> pos <= end.value <= |doc|
    decreases p
  {
    match p
    case NullValue => Expect(doc, pos, Null, "null")
    case IntValue(i) => Expect(doc, pos, Number, IntegerText(i))
    case UIntValue(u) => Expect(doc, pos, Number, IntegerText(u))
    case StringValue(s) => Expect(doc, pos, String, Quoted(s))
    case BoolValue(b) => if b then Expect(doc, pos, True, "true") else Expect(doc, pos, False, "false")
    case ArrayValue(es) =>
      var open := Expect(doc, pos, ArrayBegin, "[");
      if open.None? then None
      else if es.Nil? then Expect(doc, open.value, ArrayEnd, "]")
      else SpellItems(doc, open.value, es, 0)
    case ObjectValue(es) =>
      var open := Expect(doc, pos, ObjectBegin, "{");
      if open.None? then None
      else if es.Nil? then Expect(doc, open.value, ObjectEnd, "}")
      else SpellMembers(doc, open.value, es)
    case _ => None
  }

  /** Elements from index `i` on, and the closing bracket. */
  function SpellItems(doc: string, pos: nat, es: Entries, i: nat): (end: Option<nat>)
    requires pos <= |doc| && es.Cons?
    ensures end.Some? ==> pos <= end.value <= |doc|
    decreases es, if es.key.Index? then es.key.index - i else 0
  {
    if IsHole(es, i) then
      var item := Expect(doc, pos, Null, "null");
      if item.None? then None
      else
        var comma := Expect(doc, item.value, ArraySeparator, ",");
        if comma.None? then None else SpellItems(doc, comma.value, es, i + 1)
    else
      var item := Spell(doc, pos, es.node.payload);
      if item.None? then None
      else if es.rest.Nil? then Expect(doc, item.value, ArrayEnd, "]")
      else
        var comma := Expect(doc, item.value, ArraySeparator, ",");
        if comma.None? then None else SpellItems(doc, comma.value, es.rest, i + 1)
  }

  function SpellMembers(doc: string, pos: nat, es: Entries): (end: Option<nat>)
    requires pos <= |doc| && es.Cons?
    ensures end.Some? ==> pos <= end.value <= |doc|
    decreases es
  {
    var name := Expect(doc, pos, String, Quoted(KeyText(es.key)));
    if name.None? then None
    else
      var colon := Expect(doc, name.value, MemberSeparator, ":");
      if colon.None? then None
      else
        var item := Spell(doc, colon.value, es.node.payload);
        if item.None? then None
        else if es.rest.Nil? then Expect(doc, item.value, ObjectEnd, "}")
        else
          var comma := Expect(doc, item.value, ArraySeparator, ",");
          if comma.None? then None else SpellMembers(doc, comma.value, es.rest)
  }

  // ---------------------------------------------------------------- what is read back

  /** Numbers are re-tagged by sign and size, and array holes become null. */
  function Canon(p: Payload): Payload {
    match p
    case IntValue(i) => if i < 0 then p else Tagged(false, i)
    case UIntValue(u) => Tagged(false, u)
    case ArrayValue(es) => ArrayValue(Fill(es, 0))
    case ObjectValue(es) => ObjectValue(CanonMembers(es))
    case _ => p
  }

  function Fill(es: Entries, i: nat): Entries
    decreases es, if es.Cons? && es.key.Index? then es.key.index - i else 0
  {
    if es.Nil? then Nil
    else if IsHole(es, i) then Cons(Index(i), NullNode, Fill(es, i + 1))
    else Cons(Index(i), Node(Canon(es.node.payload), 0, 0), Fill(es.rest, i + 1))
  }

  function CanonMembers(es: Entries): Entries {
    if es.Nil? then Nil
    else Cons(Name(KeyText(es.key)), Node(Canon(es.node.payload), 0, 0), CanonMembers(es.rest))
  }

  /** `q` holds what `p` does: equal strings and truth values, equal numbers, and under every index or name the same again. */
  ghost predicate SameValue(p: Payload, q: Payload)
    decreases p
  {
    match p
    case IntValue(i) => (q.IntValue? || q.UIntValue?) && NumberOf(q) == i
    case UIntValue(u) => (q.IntValue? || q.UIntValue?) && NumberOf(q) == u
    case ArrayValue(es) => q.ArrayValue? && SameItems(es, 0, q.items)
    case ObjectValue(es) => q.ObjectValue? && SameMembers(es, q.members)
    case _ => q == p
  }

  /** From index `i` on; a missing element is a null. */
  ghost predicate SameItems(es: Entries, i: nat, qs: Entries)
    decreases es, if es.Cons? && es.key.Index? then es.key.index - i else 0
  {
    if es.Nil? then qs.Nil?
    else
      && qs.Cons? && qs.key == Index(i)
      && if i < (if es.key.Index? then es.key.index else 0) then qs.node.payload == NullValue && SameItems(es, i + 1, qs.rest)
         else SameValue(es.node.payload, qs.node.payload) && SameItems(es.rest, i + 1, qs.rest)
  }

  ghost predicate SameMembers(es: Entries, qs: Entries)
    decreases es
  {
    if es.Nil? then qs.Nil?
    else qs.Cons? && qs.key == es.key && SameValue(es.node.payload, qs.node.payload) && SameMembers(es.rest, qs.rest)
  }

  /** Canonical form changes no number. */
  lemma {:induction false} CanonHoldsTheSame(p: Payload)
    requires WellFormed(p)
    ensures SameValue(p, Canon(p))
    decreases p
  {
    match p
    case ArrayValue(es) => FillHoldsTheSame(es, 0);
    case ObjectValue(es) => MembersHoldTheSame(es);
    case _ =>
  }

  lemma {:induction false} FillHoldsTheSame(es: Entries, i: nat)
    requires WellFormedEntries(es)
    ensures SameItems(es, i, Fill(es, i))
    decreases es, if IsHole(es, i) then es.key.index - i else 0
  {
    if IsHole(es, i) {
      FillHoldsTheSame(es, i + 1);
    } else if es.Cons? {
      CanonHoldsTheSame(es.node.payload);
      FillHoldsTheSame(es.rest, i + 1);
    }
  }

  lemma {:induction false} MembersHoldTheSame(es: Entries)
    requires NameKeys(es) && WellFormedEntries(es)
    ensures SameMembers(es, CanonMembers(es))
    decreases es
  {
    if es.Cons? {
      CanonHoldsTheSame(es.node.payload);
      MembersHoldTheSame(es.rest);
    }
  }

  // ---------------------------------------------------------------- building maps in order

  function Append(a: Entries, b: Entries): Entries {
    if a.Nil? then b else Cons(a.key, a.node, Append(a.rest, b))
  }

  predicate AllBelow(es: Entries, key: CZString) {
    es.Cons? ==> KeyLess(es.key, key) && AllBelow(es.rest, key)
  }

  lemma {:induction false} PutLast(es: Entries, key: CZString, n: Node)
    requires AllBelow(es, key)
    ensures StripEntries(Put(es, key, n)) == Append(StripEntries(es), Cons(key, Node(Strip(n.payload), 0, 0), Nil))
  {
    if es.Cons? {
      KeyLessTotal(es.key, key);
      PutLast(es.rest, key, n);
    }
  }

  lemma {:induction false} PutBelow(es: Entries, key: CZString, n: Node, above: CZString)
    requires AllBelow(es, above) && KeyLess(key, above)
    ensures AllBelow(Put(es, key, n), above)
  {
    if es.Cons? && es.key != key && !KeyLess(key, es.key) {
      PutBelow(es.rest, key, n, above);
    }
  }

  lemma {:induction false} AllBelowTrans(es: Entries, key: CZString, above: CZString)
    requires AllBelow(es, key) && KeyLess(key, above)
    ensures AllBelow(es, above)
  {
    if es.Cons? {
      KeyLessTransitive(es.key, key, above);
      AllBelowTrans(es.rest, key, above);
    }
  }

  lemma {:induction false} AppendAssoc(a: Entries, b: Entries, c: Entries)
    ensures Append(Append(a, b), c) == Append(a, Append(b, c))
  {
    if a.Cons? { AppendAssoc(a.rest, b, c); }
  }

  lemma {:induction false} AppendNil(a: Entries)
    ensures Append(a, Nil) == a
  {
    if a.Cons? { AppendNil(a.rest); }
  }

  /** Putting a key above all others, then continuing with `tail`. */
  lemma PutThen(es: Entries, key: CZString, n: Node, tail: Entries)
    requires AllBelow(es, key)
    ensures Append(StripEntries(Put(es, key, n)), tail)
         == Append(StripEntries(es), Cons(key, Node(Strip(n.payload), 0, 0), tail))
  {
    var one := Cons(key, Node(Strip(n.payload), 0, 0), Nil);
    PutLast(es, key, n);
    AppendAssoc(StripEntries(es), one, tail);
  }

  // ---------------------------------------------------------------- reading what is spelled

  lemma {:induction false} SkipSpacesTwice(doc: string, pos: nat)
    requires pos <= |doc|
    ensures SkipSpaces(doc, SkipSpaces(doc, pos)) == SkipSpaces(doc, pos)
    decreases |doc| - pos
  {
    if pos < |doc| && IsSpace(doc[pos]) { SkipSpacesTwice(doc, pos + 1); }
  }

  /** Reading from past the leading spaces is reading. */
  lemma SkipFirst(doc: string, pos: nat)
    requires pos <= |doc|
    ensures ReadToken(doc, SkipSpaces(doc, pos)) == ReadToken(doc, pos)
  {
    SkipSpacesTwice(doc, pos);
  }

  /** So is reading a value. */
  lemma ValueSkip(toDouble: ToDouble, doc: string, p: nat, depth: nat, init: Node)
    requires p <= |doc|
    ensures ParseValue(toDouble, doc, SkipSpaces(doc, p), depth, init) == ParseValue(toDouble, doc, p, depth, init)
  {
    SkipFirst(doc, p);
    ParseValueCases(toDouble, doc, p, depth, init);
    ParseValueCases(toDouble, doc, SkipSpaces(doc, p), depth, init);
    hide ParseValue, ReadToken, SkipSpaces;
  }

  lemma IntegerTextDecodes(toDouble: ToDouble, i: int)
    requires -MAX_LARGEST_INT - 1 <= i <= MAX_LARGEST_UINT
    ensures DecodeNumber(toDouble, IntegerText(i)) == Some(if i < 0 then IntValue(i) else Tagged(false, i))
  {
    if i < 0 {
      DecimalValue(-i);
      assert Magnitude(IntegerText(i)) == Decimal(-i);
    } else {
      DecimalValue(i);
      assert !IsNegative(IntegerText(i));
      assert Magnitude(IntegerText(i)) == Decimal(i);
    }
  }

  /** The outcome of reading a value that is spelled from `pos` to `end`. */
  ghost predicate ReadsBack(r: Outcome, depth: nat, p: Payload, end: nat) {
    if depth + Depth(p) > 1000 then r == Thrown
    else r.Ret? && r.ok && r.pos == end && Strip(r.node.payload) == Canon(p)
  }

  ghost predicate ReadsBackItems(r: Outcome, depth: nat, before: Entries, es: Entries, i: nat, end: nat) {
    if depth + DepthEntries(es) > STACK_LIMIT then r == Thrown
    else
      && r.Ret? && r.ok && r.pos == end && r.node.payload.ArrayValue?
      && StripEntries(r.node.payload.items) == Append(StripEntries(before), Fill(es, i))
  }

  ghost predicate ReadsBackMembers(r: Outcome, depth: nat, before: Entries, es: Entries, end: nat) {
    if depth + DepthEntries(es) > STACK_LIMIT then r == Thrown
    else
      && r.Ret? && r.ok && r.pos == end && r.node.payload.ObjectValue?
      && StripEntries(r.node.payload.members) == Append(StripEntries(before), CanonMembers(es))
  }

  lemma ScalarStep(toDouble: ToDouble, doc: string, pos: nat, depth: nat, init: Node)
    requires pos <= |doc| && depth < STACK_LIMIT
    requires ReadToken(doc, pos).kind != ObjectBegin && ReadToken(doc, pos).kind != ArrayBegin
    ensures ReadToken(doc, pos).kind == String ==> ReadToken(doc, pos).end - ReadToken(doc, pos).start >= 2
    ensures ParseValue(toDouble, doc, pos, depth, init) == ReadScalar(toDouble, doc, ReadToken(doc, pos), init)
  {
  }

  lemma SpelledScalar(toDouble: ToDouble, doc: string, pos: nat, p: Payload, depth: nat, init: Node)
    requires pos <= |doc| && WellFormed(p) && Plain(p) && !p.ArrayValue? && !p.ObjectValue?
    requires Spell(doc, pos, p).Some?
    ensures ReadsBack(ParseValue(toDouble, doc, pos, depth, init), depth, p, Spell(doc, pos, p).value)
  {
    hide ReadToken, Text, DecodeNumber, DecodeString, IntegerText, Quoted;
    if depth < STACK_LIMIT {
      ScalarStep(toDouble, doc, pos, depth, init);
      hide ParseValue;
      match p
      case IntValue(i) => IntegerTextDecodes(toDouble, i);
      case UIntValue(u) => IntegerTextDecodes(toDouble, u);
      case StringValue(s) => DecodeQuoted(s);
      case _ =>
    }
  }

  lemma {:induction false} SpelledValue(toDouble: ToDouble, doc: string, pos: nat, p: Payload, depth: nat, init: Node)
    requires pos <= |doc| && WellFormed(p) && Plain(p)
    requires Spell(doc, pos, p).Some?
    ensures ReadsBack(ParseValue(toDouble, doc, pos, depth, init), depth, p, Spell(doc, pos, p).value)
    decreases p
  {
    hide ReadToken, Text, ReadScalar, ParseMembers, ParseArray, SpellItems, SpellMembers;
    if p.ArrayValue? {
      if depth < STACK_LIMIT {
        var open := ReadToken(doc, pos);
        SpelledArray(toDouble, doc, open.end, p.items, depth + 1, Node(ArrayValue(Nil), open.start, init.limit));
      }
    } else if p.ObjectValue? {
      if depth < STACK_LIMIT {
        var open := ReadToken(doc, pos);
        SpelledObject(toDouble, doc, open.end, p.members, depth + 1, Node(ObjectValue(Nil), open.start, init.limit));
      }
    } else {
      SpelledScalar(toDouble, doc, pos, p, depth, init);
    }
  }

  /** The text of an array past its opening bracket. */
  function SpellArray(doc: string, pos: nat, es: Entries): Option<nat>
    requires pos <= |doc|
  {
    if es.Nil? then Expect(doc, pos, ArrayEnd, "]") else SpellItems(doc, pos, es, 0)
  }

  function SpellObject(doc: string, pos: nat, es: Entries): Option<nat>
    requires pos <= |doc|
  {
    if es.Nil? then Expect(doc, pos, ObjectEnd, "}") else SpellMembers(doc, pos, es)
  }

  lemma {:induction false} SpelledArray(toDouble: ToDouble, doc: string, pos: nat, es: Entries, depth: nat, node: Node)
    requires pos <= |doc| && IndexKeys(es) && WellFormedEntries(es) && PlainEntries(es)
    requires node.payload == ArrayValue(Nil) && depth <= STACK_LIMIT
    requires SpellArray(doc, pos, es).Some?
    ensures ReadsBackItems(ParseArray(toDouble, doc, pos, depth, node), depth, Nil, es, 0, SpellArray(doc, pos, es).value)
    decreases es, 1
  {
    SkipFirst(doc, pos);
    var start := SkipSpaces(doc, pos);
    if es.Cons? {
      SpellItemsSkip(doc, pos, es, 0);
      hide ReadToken, ParseElements, SpellItems;
      SpelledItems(toDouble, doc, start, es, depth, node, 0);
    }
  }

  lemma {:induction false} SpelledObject(toDouble: ToDouble, doc: string, pos: nat, es: Entries, depth: nat, node: Node)
    requires pos <= |doc| && NameKeys(es) && Sorted(es) && WellFormedEntries(es) && PlainEntries(es)
    requires node.payload == ObjectValue(Nil) && depth <= STACK_LIMIT
    requires SpellObject(doc, pos, es).Some?
    ensures ReadsBackMembers(ParseMembers(toDouble, doc, pos, depth, node, ""), depth, Nil, es, SpellObject(doc, pos, es).value)
    decreases es, 1
  {
    hide ReadToken, SpellMembers;
    if es.Cons? {
      hide ParseMembers;
      SpelledMembers(toDouble, doc, pos, es, depth, node, "");
    }
  }

  /** What is spelled past white space is spelled before it. */
  lemma SpellSkip(doc: string, pos: nat, p: Payload)
    requires pos <= |doc|
    ensures Spell(doc, SkipSpaces(doc, pos), p) == Spell(doc, pos, p)
  {
    SkipFirst(doc, pos);
    hide ReadToken, SkipSpaces, Text;
  }

  lemma SpelledFirstToken(doc: string, pos: nat, p: Payload)
    requires pos <= |doc| && Spell(doc, pos, p).Some?
    ensures ReadToken(doc, pos).kind != ArrayEnd
  {
  }

  lemma PeekBracket(doc: string, pos: nat)
    requires pos <= |doc| && Peek(doc, SkipSpaces(doc, pos)) == ']'
    ensures ReadToken(doc, pos).kind == ArrayEnd
  {
  }

  lemma SpellItemsSkip(doc: string, pos: nat, es: Entries, i: nat)
    requires pos <= |doc| && es.Cons? && SpellItems(doc, pos, es, i).Some?
    ensures SpellItems(doc, SkipSpaces(doc, pos), es, i) == SpellItems(doc, pos, es, i)
    ensures Peek(doc, SkipSpaces(doc, pos)) != ']'
  {
    SkipFirst(doc, pos);
    var p := if IsHole(es, i) then NullValue else es.node.payload;
    SpellSkip(doc, pos, p);
    SpelledFirstToken(doc, pos, p);
    if Peek(doc, SkipSpaces(doc, pos)) == ']' { PeekBracket(doc, pos); }
    hide ReadToken, Text, SkipSpaces;
  }

  /** The element at index `i`: a null for a hole. */
  function ItemAt(es: Entries, i: nat): Payload
    requires es.Cons?
  {
    if IsHole(es, i) then NullValue else es.node.payload
  }

  function NextItems(es: Entries, i: nat): Entries
    requires es.Cons?
  {
    if IsHole(es, i) then es else es.rest
  }

  lemma {:induction false} SpelledItem(toDouble: ToDouble, doc: string, pos: nat, es: Entries, i: nat, depth: nat, init: Node)
    requires pos <= |doc| && es.Cons? && WellFormedEntries(es) && PlainEntries(es)
    requires Spell(doc, pos, ItemAt(es, i)).Some?
    ensures ReadsBack(ParseValue(toDouble, doc, pos, depth, init), depth, ItemAt(es, i), Spell(doc, pos, ItemAt(es, i)).value)
    decreases es, 0, 0, 0
  {
    if IsHole(es, i) {
      SpelledScalar(toDouble, doc, pos, NullValue, depth, init);
    } else {
      SpelledValue(toDouble, doc, pos, es.node.payload, depth, init);
    }
  }

  lemma SpellItemsStep(doc: string, pos: nat, es: Entries, i: nat)
    requires pos <= |doc| && es.Cons? && SpellItems(doc, pos, es, i).Some?
    ensures var item := Spell(doc, pos, ItemAt(es, i)); var next := NextItems(es, i);
            && item.Some?
            && var t := ReadToken(doc, item.value);
               if next.Nil? then t.kind == ArrayEnd && SpellItems(doc, pos, es, i) == Some(t.end)
               else t.kind == ArraySeparator && SpellItems(doc, t.end, next, i + 1) == SpellItems(doc, pos, es, i)
  {
  }

  /** The reader's loop over elements takes one element, then what follows it decides. */
  lemma ParseElementsStep(toDouble: ToDouble, doc: string, pos: nat, depth: nat, node: Node, i: nat)
    requires pos <= |doc| && node.payload.ArrayValue?
    ensures var r := ParseValue(toDouble, doc, pos, depth, Child(node.payload.items, Index(i)));
            && (r.Thrown? ==> ParseElements(toDouble, doc, pos, depth, node, i) == Thrown)
            && (r.Ret? && r.ok ==>
                var grown := node.(payload := ArrayValue(Put(node.payload.items, Index(i), r.node)));
                var t := ReadToken(doc, r.pos);
                && (t.kind == ArrayEnd ==> ParseElements(toDouble, doc, pos, depth, node, i) == Ret(true, grown, t.end, []))
                && (t.kind == ArraySeparator ==>
                    ParseElements(toDouble, doc, pos, depth, node, i) == ParseElements(toDouble, doc, t.end, depth, grown, i + 1)))
  {
  }

  lemma ItemsStep(es: Entries, i: nat)
    requires es.Cons?
    ensures Fill(es, i) == Cons(Index(i), Node(Canon(ItemAt(es, i)), 0, 0), Fill(NextItems(es, i), i + 1))
    ensures DepthEntries(es) == Max(Depth(ItemAt(es, i)), DepthEntries(NextItems(es, i)))
  {
  }

  lemma {:induction false} SpelledItems(toDouble: ToDouble, doc: string, pos: nat, es: Entries, depth: nat, node: Node, i: nat)
    requires pos <= |doc| && es.Cons? && IndexKeys(es) && WellFormedEntries(es) && PlainEntries(es)
    requires node.payload.ArrayValue? && AllBelow(node.payload.items, Index(i))
    requires SpellItems(doc, pos, es, i).Some?
    ensures ReadsBackItems(ParseElements(toDouble, doc, pos, depth, node, i), depth, node.payload.items, es, i, SpellItems(doc, pos, es, i).value)
    decreases es, 0, if IsHole(es, i) then es.key.index - i else 0, 1
  {
    hide ReadToken, Spell, SpellItems, ParseValue, ParseElements, Child, Put, Depth, DepthEntries, Fill, Canon, Strip;
    var items := node.payload.items;
    var init := Child(items, Index(i));
    var next := NextItems(es, i);
    SpellItemsStep(doc, pos, es, i);
    SpelledItem(toDouble, doc, pos, es, i, depth, init);
    ParseElementsStep(toDouble, doc, pos, depth, node, i);
    ItemsStep(es, i);
    var r := ParseValue(toDouble, doc, pos, depth, init);
    if r.Ret? {
      var grown := Put(items, Index(i), r.node);
      AllBelowTrans(items, Index(i), Index(i + 1));
      PutBelow(items, Index(i), r.node, Index(i + 1));
      PutThen(items, Index(i), r.node, Fill(next, i + 1));
      if next.Cons? {
        SpelledItems(toDouble, doc, ReadToken(doc, r.pos).end, next, depth, node.(payload := ArrayValue(grown)), i + 1);
      } else {
        FillNothing(i + 1);
        AppendNil(StripEntries(grown));
      }
    }
  }

  lemma FillNothing(i: nat)
    ensures Fill(Nil, i) == Nil && CanonMembers(Nil) == Nil && DepthEntries(Nil) == 0
  {
  }

  lemma SpellMembersStep(doc: string, pos: nat, es: Entries)
    requires pos <= |doc| && es.Cons? && SpellMembers(doc, pos, es).Some?
    ensures var t := ReadToken(doc, pos); var colon := ReadToken(doc, t.end);
            var item := Spell(doc, colon.end, es.node.payload);
            && t.kind == String && Text(doc, t) == Quoted(KeyText(es.key)) && colon.kind == MemberSeparator
            && item.Some?
            && var u := ReadToken(doc, item.value);
               if es.rest.Nil? then u.kind == ObjectEnd && SpellMembers(doc, pos, es) == Some(u.end)
               else u.kind == ArraySeparator && SpellMembers(doc, u.end, es.rest) == SpellMembers(doc, pos, es)
  {
    hide ReadToken, Text, Quoted;
  }

  lemma ParseMembersStep(toDouble: ToDouble, doc: string, pos: nat, depth: nat, node: Node, name: string, key: string)
    requires pos <= |doc| && node.payload.ObjectValue?
    requires var t := ReadToken(doc, pos);
             t.kind == String && Text(doc, t) == Quoted(key) && ReadToken(doc, t.end).kind == MemberSeparator
    ensures var colon := ReadToken(doc, ReadToken(doc, pos).end);
            var r := ParseValue(toDouble, doc, colon.end, depth, Child(node.payload.members, Name(key)));
            && (r.Thrown? ==> ParseMembers(toDouble, doc, pos, depth, node, name) == Thrown)
            && (r.Ret? && r.ok ==>
                var grown := node.(payload := ObjectValue(Put(node.payload.members, Name(key), r.node)));
                var t := ReadToken(doc, r.pos);
                && (t.kind == ObjectEnd ==> ParseMembers(toDouble, doc, pos, depth, node, name) == Ret(true, grown, t.end, []))
                && (t.kind == ArraySeparator ==>
                    ParseMembers(toDouble, doc, pos, depth, node, name) == ParseMembers(toDouble, doc, t.end, depth, grown, key)))
  {
    StringTokenLengthAfterComments(doc, pos);
    DecodeQuoted(key);
    hide ReadToken, Text, ParseValue, Child, Put, Quoted, DecodeString;
  }

  lemma MembersStep(es: Entries)
    requires es.Cons? && es.key.Name?
    ensures CanonMembers(es) == Cons(es.key, Node(Canon(es.node.payload), 0, 0), CanonMembers(es.rest))
    ensures DepthEntries(es) == Max(Depth(es.node.payload), DepthEntries(es.rest))
  {
  }

  lemma {:induction false} SpelledMembers(toDouble: ToDouble, doc: string, pos: nat, es: Entries, depth: nat, node: Node, name: string)
    requires pos <= |doc| && es.Cons? && NameKeys(es) && Sorted(es) && WellFormedEntries(es) && PlainEntries(es)
    requires node.payload.ObjectValue? && AllBelow(node.payload.members, es.key)
    requires SpellMembers(doc, pos, es).Some?
    ensures ReadsBackMembers(ParseMembers(toDouble, doc, pos, depth, node, name), depth, node.payload.members, es, SpellMembers(doc, pos, es).value)
    decreases es, 0
  {
    hide ReadToken, Text, Spell, SpellMembers, ParseValue, ParseMembers, Child, Put, Quoted, Depth, DepthEntries, CanonMembers, Canon, Strip;
    var members := node.payload.members;
    var key := es.key.str;
    SpellMembersStep(doc, pos, es);
    var colon := ReadToken(doc, ReadToken(doc, pos).end);
    ParseMembersStep(toDouble, doc, pos, depth, node, name, key);
    MembersStep(es);
    var init := Child(members, es.key);
    SpelledValue(toDouble, doc, colon.end, es.node.payload, depth, init);
    var r := ParseValue(toDouble, doc, colon.end, depth, init);
    if r.Ret? {
      var grown := Put(members, es.key, r.node);
      PutThen(members, es.key, r.node, CanonMembers(es.rest));
      if es.rest.Cons? {
        AllBelowTrans(members, es.key, es.rest.key);
        PutBelow(members, es.key, r.node, es.rest.key);
        var comma := ReadToken(doc, r.pos);
        SpelledMembers(toDouble, doc, comma.end, es.rest, depth, node.(payload := ObjectValue(grown)), key);
      } else {
        FillNothing(0);
        AppendNil(StripEntries(grown));
      }
    }
  }
}
