/**
 The offsets the reader records: every node's range, cut out of the document and read on its
 own, gives that node again; ranges nest, and those of siblings do not overlap.
 */
module JsonRanges {
  import opened Basics
  import opened JsonValue
  import opened JsonLexer
  import opened JsonText
  import opened JsonGrammar
  import opened JsonSpelling

  // ---------------------------------------------------------------- scanning a slice

  /** Tokens that end inside doc[s..e] are the tokens of that slice. */
  ghost predicate Slice(doc: string, s: nat, e: nat) { s <= e <= |doc| }

  lemma {:induction false} SpacesLocal(doc: string, s: nat, e: nat, p: nat)
    requires Slice(doc, s, e) && s <= p <= e && SkipSpaces(doc, p) <= e
    ensures SkipSpaces(doc[s..e], p - s) == SkipSpaces(doc, p) - s
    decreases e - p
  {
    if p < e && IsSpace(doc[p]) { SpacesLocal(doc, s, e, p + 1); }
  }

  lemma {:induction false} DigitsLocal(doc: string, s: nat, e: nat, p: nat)
    requires Slice(doc, s, e) && s <= p <= e && SkipDigits(doc, p) <= e
    ensures SkipDigits(doc[s..e], p - s) == SkipDigits(doc, p) - s
    decreases e - p
  {
    if p < e && IsDigit(doc[p]) { DigitsLocal(doc, s, e, p + 1); }
  }

  lemma SliceOfSlice(doc: string, s: nat, e: nat, a: nat, b: nat)
    requires Slice(doc, s, e) && s <= a <= b <= e
    ensures doc[s..e][a - s..b - s] == doc[a..b]
  {
    var x, y := doc[s..e][a - s..b - s], doc[a..b];
    assert |x| == |y| && forall i :: 0 <= i < |x| ==> x[i] == y[i];
  }

  lemma FractionLocal(doc: string, s: nat, e: nat, p: nat)
    requires Slice(doc, s, e) && s <= p <= e && FractionEnd(doc, p) <= e
    ensures FractionEnd(doc[s..e], p - s) == FractionEnd(doc, p) - s
  {
    if p < |doc| && doc[p] == '.' { DigitsLocal(doc, s, e, p + 1); }
    hide SkipDigits;
  }

  lemma ExponentLocal(doc: string, s: nat, e: nat, p: nat)
    requires Slice(doc, s, e) && s <= p <= e && ExponentEnd(doc, p) <= e
    ensures ExponentEnd(doc[s..e], p - s) == ExponentEnd(doc, p) - s
  {
    if p < |doc| && (doc[p] == 'e' || doc[p] == 'E') {
      DigitsLocal(doc, s, e, SignEnd(doc, p + 1));
      assert SignEnd(doc[s..e], p + 1 - s) == SignEnd(doc, p + 1) - s;
    }
    hide SkipDigits;
  }

  lemma NumberLocal(doc: string, s: nat, e: nat, p: nat)
    requires Slice(doc, s, e) && s <= p <= e && NumberEnd(doc, p) <= e
    ensures NumberEnd(doc[s..e], p - s) == NumberEnd(doc, p) - s
  {
    var a := SkipDigits(doc, p);
    DigitsLocal(doc, s, e, p);
    FractionLocal(doc, s, e, a);
    ExponentLocal(doc, s, e, FractionEnd(doc, a));
    hide SkipDigits, FractionEnd, ExponentEnd;
  }

  lemma {:induction false} StringMoves(doc: string, p: nat)
    requires p < |doc|
    ensures p < StringEnd(doc, p).end
  {
  }

  lemma {:induction false} StringLocal(doc: string, s: nat, e: nat, p: nat)
    requires Slice(doc, s, e) && s <= p <= e && StringEnd(doc, p).end <= e
    ensures StringEnd(doc[s..e], p - s) == Scan(StringEnd(doc, p).ok, StringEnd(doc, p).end - s)
    decreases e - p
  {
    if p < |doc| {
      StringMoves(doc, p);
      if doc[p] == '\\' {
        StringLocal(doc, s, e, Advance(doc, p + 1));
      } else if doc[p] != '"' {
        StringLocal(doc, s, e, p + 1);
      }
    }
  }

  lemma {:induction false} CStyleLocal(doc: string, s: nat, e: nat, p: nat)
    requires Slice(doc, s, e) && s <= p <= e && Advance(doc, CStyleStop(doc, p)) <= e
    ensures CStyleStop(doc[s..e], p - s) == CStyleStop(doc, p) - s
    decreases e - p
  {
    if p < e && !(doc[p] == '*' && Peek(doc, p + 1) == '/') { CStyleLocal(doc, s, e, p + 1); }
  }

  lemma {:induction false} CppStyleLocal(doc: string, s: nat, e: nat, p: nat)
    requires Slice(doc, s, e) && s <= p <= e && CppStyleEnd(doc, p) <= e
    ensures CppStyleEnd(doc[s..e], p - s) == CppStyleEnd(doc, p) - s
    decreases e - p
  {
    if p < e && doc[p] != '\n' && doc[p] != '\r' { CppStyleLocal(doc, s, e, p + 1); }
  }

  lemma CommentLocal(doc: string, s: nat, e: nat, p: nat)
    requires Slice(doc, s, e) && s <= p <= e && CommentEnd(doc, p).end <= e
    ensures CommentEnd(doc[s..e], p - s) == Scan(CommentEnd(doc, p).ok, CommentEnd(doc, p).end - s)
  {
    if p < |doc| {
      if doc[p] == '*' { CStyleLocal(doc, s, e, p + 1); }
      if doc[p] == '/' { CppStyleLocal(doc, s, e, p + 1); }
    }
  }

  lemma LiteralLocal(doc: string, s: nat, e: nat, p: nat, pattern: string)
    requires Slice(doc, s, e) && s <= p <= e && LiteralEnd(doc, p, pattern).end <= e
    ensures LiteralEnd(doc[s..e], p - s, pattern) == Scan(LiteralEnd(doc, p, pattern).ok, LiteralEnd(doc, p, pattern).end - s)
  {
    if p + |pattern| <= e { SliceOfSlice(doc, s, e, p, p + |pattern|); }
  }

  function Moved(t: Token, back: nat): Token
    requires back <= t.start && back <= t.end
  {
    Token(t.kind, t.start - back, t.end - back)
  }

  lemma TokenAtLocal(doc: string, s: nat, e: nat, start: nat)
    requires Slice(doc, s, e) && s <= start <= e && TokenAt(doc, start).end <= e
    ensures TokenAt(doc[s..e], start - s) == Moved(TokenAt(doc, start), s)
  {
    hide NumberEnd, StringEnd, CommentEnd, LiteralEnd;
    if start < |doc| {
      match doc[start] {
        case '"' => StringLocal(doc, s, e, start + 1);
        case '/' => CommentLocal(doc, s, e, start + 1);
        case 't' => LiteralLocal(doc, s, e, start + 1, "rue");
        case 'f' => LiteralLocal(doc, s, e, start + 1, "alse");
        case 'n' => LiteralLocal(doc, s, e, start + 1, "ull");
        case c => if IsDigit(c) || c == '-' { NumberLocal(doc, s, e, start + 1); }
      }
    }
  }

  lemma TokenLocal(doc: string, s: nat, e: nat, p: nat)
    requires Slice(doc, s, e) && s <= p <= e && ReadToken(doc, p).end <= e
    ensures ReadToken(doc[s..e], p - s) == Moved(ReadToken(doc, p), s)
    ensures Text(doc[s..e], ReadToken(doc[s..e], p - s)) == Text(doc, ReadToken(doc, p))
  {
    hide TokenAt, SkipSpaces;
    var t, start := ReadToken(doc, p), SkipSpaces(doc, p);
    SpacesLocal(doc, s, e, p);
    TokenAtLocal(doc, s, e, start);
    SliceOfSlice(doc, s, e, t.start, t.end);
  }

  lemma {:induction false} CommentsLocal(doc: string, s: nat, e: nat, t: Token)
    requires Slice(doc, s, e) && s <= t.start <= t.end && (t.start == t.end ==> t.kind == EndOfStream)
    requires t.end <= |doc| && SkipComments(doc, t).end <= e
    ensures s <= SkipComments(doc, t).start
    ensures SkipComments(doc[s..e], Moved(t, s)) == Moved(SkipComments(doc, t), s)
    decreases |doc| - t.end, t.kind == Comment
  {
    hide ReadToken, Text;
    if t.kind == Comment {
      TokenLocal(doc, s, e, t.end);
      CommentsLocal(doc, s, e, ReadToken(doc, t.end));
    }
  }

  /** The next token that is no comment, in the slice and in the document. */
  lemma NextLocal(doc: string, s: nat, e: nat, p: nat)
    requires Slice(doc, s, e) && s <= p <= e && SkipComments(doc, ReadToken(doc, p)).end <= e
    ensures s <= SkipComments(doc, ReadToken(doc, p)).start
    ensures ReadToken(doc[s..e], p - s) == Moved(ReadToken(doc, p), s)
    ensures var t := SkipComments(doc[s..e], ReadToken(doc[s..e], p - s));
            && t == Moved(SkipComments(doc, ReadToken(doc, p)), s)
            && Text(doc[s..e], t) == Text(doc, SkipComments(doc, ReadToken(doc, p)))
  {
    hide ReadToken;
    TokenLocal(doc, s, e, p);
    CommentsLocal(doc, s, e, ReadToken(doc, p));
    var t := SkipComments(doc, ReadToken(doc, p));
    SliceOfSlice(doc, s, e, t.start, t.end);
    hide SkipComments;
  }

  // ---------------------------------------------------------------- reading a slice

  /** The tree with every offset moved forward. */
  function ShiftNode(n: Node, d: nat): Node
    decreases n
  {
    Node(Shift(n.payload, d), n.start + d, n.limit + d)
  }

  function Shift(p: Payload, d: nat): Payload
    decreases p
  {
    match p
    case ArrayValue(es) => ArrayValue(ShiftEntries(es, d))
    case ObjectValue(es) => ObjectValue(ShiftEntries(es, d))
    case _ => p
  }

  function ShiftEntries(es: Entries, d: nat): Entries
    decreases es
  {
    if es.Nil? then Nil else Cons(es.key, ShiftNode(es.node, d), ShiftEntries(es.rest, d))
  }

  lemma {:induction false} PutShift(es: Entries, key: CZString, n: Node, d: nat)
    ensures ShiftEntries(Put(es, key, n), d) == Put(ShiftEntries(es, d), key, ShiftNode(n, d))
    decreases es
  {
    if es.Cons? { PutShift(es.rest, key, n, d); }
  }

  /** The slice is read as the document is, with offsets counted from the slice's start. */
  ghost predicate Agrees(inner: Outcome, outer: Outcome, s: nat) {
    && inner.Ret? && outer.Ret? && inner.ok && inner.pos + s == outer.pos
    && Shift(inner.node.payload, s) == outer.node.payload && inner.node.start + s == outer.node.start
  }

  /** A read that succeeds inside the slice, at the given position. */
  ghost predicate SucceedsBy(r: Outcome, e: nat) { r.Ret? && r.ok && r.pos <= e }

  ghost predicate SameNode(inner: Node, outer: Node, s: nat) {
    Shift(inner.payload, s) == outer.payload && inner.start + s == outer.start
  }

  lemma ShiftEmpty(s: nat)
    ensures Shift(ObjectValue(Nil), s) == ObjectValue(Nil) && Shift(ArrayValue(Nil), s) == ArrayValue(Nil)
  {
  }

  lemma ScalarLocal(toDouble: ToDouble, doc: string, s: nat, e: nat, t: Token, outer: Node, inner: Node)
    requires Slice(doc, s, e) && s <= t.start <= t.end <= e
    requires t.kind != ObjectBegin && t.kind != ArrayBegin && (t.kind == String ==> t.end - t.start >= 2)
    requires ReadScalar(toDouble, doc, t, outer).ok
    ensures Agrees(ReadScalar(toDouble, doc[s..e], Moved(t, s), inner), ReadScalar(toDouble, doc, t, outer), s)
  {
    SameText(doc, s, e, t);
    hide Text, DecodeNumber, DecodeString;
  }

  lemma {:induction false} ValueLocal(toDouble: ToDouble, doc: string, s: nat, e: nat, p: nat,
                                      depth: nat, less: nat, outer: Node, inner: Node)
    requires Slice(doc, s, e) && s <= p <= e && less <= depth
    requires SucceedsBy(ParseValue(toDouble, doc, p, depth, outer), e)
    ensures Agrees(ParseValue(toDouble, doc[s..e], p - s, less, inner), ParseValue(toDouble, doc, p, depth, outer), s)
    ensures ShiftNode(ParseValue(toDouble, doc[s..e], p - s, less, inner).node, s) == ParseValue(toDouble, doc, p, depth, outer).node
    decreases |doc| - p, 0
  {
    hide ReadToken, ReadScalar, ParseValue, ParseMembers, ParseArray, Shift;
    var t := ReadToken(doc, p);
    ParseValueCases(toDouble, doc, p, depth, outer);
    ParseValueCases(toDouble, doc[s..e], p - s, less, inner);
    TokenLocal(doc, s, e, p);
    assert Shift(ObjectValue(Nil), s) == ObjectValue(Nil) && Shift(ArrayValue(Nil), s) == ArrayValue(Nil) by { ShiftEmpty(s); }
    if t.kind == ObjectBegin {
      MembersLocal(toDouble, doc, s, e, t.end, depth + 1, less + 1,
                   Node(ObjectValue(Nil), t.start, outer.limit), Node(ObjectValue(Nil), t.start - s, inner.limit), "");
    } else if t.kind == ArrayBegin {
      ArrayLocal(toDouble, doc, s, e, t.end, depth + 1, less + 1,
                 Node(ArrayValue(Nil), t.start, outer.limit), Node(ArrayValue(Nil), t.start - s, inner.limit));
    } else {
      ScalarLocal(toDouble, doc, s, e, t, outer, inner);
    }
  }

  lemma {:induction false} MembersLocal(toDouble: ToDouble, doc: string, s: nat, e: nat, p: nat,
                                        depth: nat, less: nat, outer: Node, inner: Node, name: string)
    requires Slice(doc, s, e) && s <= p <= e && less <= depth
    requires outer.payload.ObjectValue? && inner.payload.ObjectValue? && SameNode(inner, outer, s)
    requires SucceedsBy(ParseMembers(toDouble, doc, p, depth, outer, name), e)
    ensures Agrees(ParseMembers(toDouble, doc[s..e], p - s, less, inner, name), ParseMembers(toDouble, doc, p, depth, outer, name), s)
    decreases |doc| - p, 2
  {
    hide ReadToken, SkipComments, ParseMember, ParseMembers, Shift;
    var t := SkipComments(doc, ReadToken(doc, p));
    ParseMembersCases(toDouble, doc, p, depth, outer, name);
    ParseMembersCases(toDouble, doc[s..e], p - s, less, inner, name);
    NextLocal(doc, s, e, p);
    if t.kind == String {
      MemberLocal(toDouble, doc, s, e, t, depth, less, outer, inner);
      var turn, small := ParseMember(toDouble, doc, t, depth, outer), ParseMember(toDouble, doc[s..e], Moved(t, s), less, inner);
      if turn.More? {
        MembersLocal(toDouble, doc, s, e, turn.pos, depth, less, turn.node, small.node, turn.name);
      }
    }
  }

  ghost predicate TurnBy(turn: Turn, e: nat) {
    if turn.Stop? then SucceedsBy(turn.outcome, e) else turn.pos <= e
  }

  ghost predicate SameTurn(inner: Turn, outer: Turn, s: nat) {
    match outer
    case Stop(r) => inner.Stop? && Agrees(inner.outcome, r, s)
    case More(pos, node, name) => inner.More? && inner.pos + s == pos && inner.name == name && SameNode(inner.node, node, s)
  }

  lemma AfterMemberLocal(doc: string, s: nat, e: nat, p: nat, outer: Node, inner: Node, name: string)
    requires Slice(doc, s, e) && s <= p <= |doc| && SameNode(inner, outer, s) && TurnBy(AfterMember(doc, p, outer, name), e)
    ensures p <= e && SameTurn(AfterMember(doc[s..e], p - s, inner, name), AfterMember(doc, p, outer, name), s)
  {
    hide ReadToken, SkipComments;
    NextLocal(doc, s, e, p);
  }

  /** One turn of the object loop that leads to a success. */
  lemma {:induction false} MemberLocal(toDouble: ToDouble, doc: string, s: nat, e: nat, t: Token,
                                       depth: nat, less: nat, outer: Node, inner: Node)
    requires Slice(doc, s, e) && s <= t.start && t.start + 2 <= t.end <= e && less <= depth
    requires outer.payload.ObjectValue? && inner.payload.ObjectValue? && SameNode(inner, outer, s)
    requires TurnBy(ParseMember(toDouble, doc, t, depth, outer), e)
    ensures SameTurn(ParseMember(toDouble, doc[s..e], Moved(t, s), less, inner), ParseMember(toDouble, doc, t, depth, outer), s)
    decreases |doc| - t.end, 1
  {
    hide ReadToken, SkipComments, ParseValue, ParseMember, AfterMember, DecodeString, Child, Put, Shift;
    SliceOfSlice(doc, s, e, t.start, t.end);
    SucceedingMember(toDouble, doc, t, depth, outer);
    SucceedingMember(toDouble, doc[s..e], Moved(t, s), less, inner);
    SameText(doc, s, e, t);
    var d := DecodeString(Text(doc, t));
    var colon := ReadToken(doc, t.end);
    var key := Name(d.value);
    var init, small := Child(outer.payload.members, key), Child(inner.payload.members, key);
    var r := ParseValue(toDouble, doc, colon.end, depth, init);
    MemberEnds(doc, r.pos, outer.(payload := ObjectValue(Put(outer.payload.members, key, r.node))), d.value, e);
    TokenLocal(doc, s, e, t.end);
    ValueLocal(toDouble, doc, s, e, colon.end, depth, less, init, small);
    var q := ParseValue(toDouble, doc[s..e], colon.end - s, less, small);
    PutObject(inner, outer, key, q.node, r.node, s);
    AfterMemberLocal(doc, s, e, r.pos, outer.(payload := ObjectValue(Put(outer.payload.members, key, r.node))),
                     inner.(payload := ObjectValue(Put(inner.payload.members, key, q.node))), d.value);
  }

  /** A turn that ends inside the slice read its value inside the slice. */
  lemma MemberEnds(doc: string, p: nat, node: Node, name: string, e: nat)
    requires p <= |doc| && TurnBy(AfterMember(doc, p, node, name), e)
    ensures p <= e
  {
    hide ReadToken, SkipComments;
  }

  lemma SameText(doc: string, s: nat, e: nat, t: Token)
    requires Slice(doc, s, e) && s <= t.start <= t.end <= e
    ensures Text(doc[s..e], Moved(t, s)) == Text(doc, t)
  {
    SliceOfSlice(doc, s, e, t.start, t.end);
  }

  lemma PutObject(inner: Node, outer: Node, key: CZString, small: Node, node: Node, s: nat)
    requires outer.payload.ObjectValue? && inner.payload.ObjectValue? && SameNode(inner, outer, s) && ShiftNode(small, s) == node
    ensures SameNode(inner.(payload := ObjectValue(Put(inner.payload.members, key, small))),
                     outer.(payload := ObjectValue(Put(outer.payload.members, key, node))), s)
  {
    PutShift(inner.payload.members, key, small, s);
  }

  lemma PutArray(inner: Node, outer: Node, key: CZString, small: Node, node: Node, s: nat)
    requires outer.payload.ArrayValue? && inner.payload.ArrayValue? && SameNode(inner, outer, s) && ShiftNode(small, s) == node
    ensures SameNode(inner.(payload := ArrayValue(Put(inner.payload.items, key, small))),
                     outer.(payload := ArrayValue(Put(outer.payload.items, key, node))), s)
  {
    PutShift(inner.payload.items, key, small, s);
  }

  lemma {:induction false} ArrayLocal(toDouble: ToDouble, doc: string, s: nat, e: nat, p: nat,
                                      depth: nat, less: nat, outer: Node, inner: Node)
    requires Slice(doc, s, e) && s <= p <= e && less <= depth
    requires outer.payload.ArrayValue? && inner.payload.ArrayValue? && SameNode(inner, outer, s)
    requires SucceedsBy(ParseArray(toDouble, doc, p, depth, outer), e)
    ensures Agrees(ParseArray(toDouble, doc[s..e], p - s, less, inner), ParseArray(toDouble, doc, p, depth, outer), s)
    decreases |doc| - p, 2
  {
    hide ReadToken, SkipSpaces, ParseElements, Shift;
    var start := SkipSpaces(doc, p);
    SpacesLocal(doc, s, e, p);
    if Peek(doc, start) == ']' {
      TokenLocal(doc, s, e, start);
    } else {
      ElementsLocal(toDouble, doc, s, e, start, depth, less, outer, inner, 0);
    }
  }

  lemma {:induction false} ElementsLocal(toDouble: ToDouble, doc: string, s: nat, e: nat, p: nat,
                                         depth: nat, less: nat, outer: Node, inner: Node, index: nat)
    requires Slice(doc, s, e) && s <= p <= e && less <= depth
    requires outer.payload.ArrayValue? && inner.payload.ArrayValue? && SameNode(inner, outer, s)
    requires SucceedsBy(ParseElements(toDouble, doc, p, depth, outer, index), e)
    ensures Agrees(ParseElements(toDouble, doc[s..e], p - s, less, inner, index), ParseElements(toDouble, doc, p, depth, outer, index), s)
    decreases |doc| - p, 1
  {
    hide ReadToken, SkipComments, ParseValue, ParseElements, Child, Put, Shift, Recover;
    var key := Index(index);
    var init, small := Child(outer.payload.items, key), Child(inner.payload.items, key);
    ParseElementsCases(toDouble, doc, p, depth, outer, index);
    ElementEnds(toDouble, doc, p, depth, outer, index, e);
    ValueLocal(toDouble, doc, s, e, p, depth, less, init, small);
    ParseElementsCases(toDouble, doc[s..e], p - s, less, inner, index);
    var r := ParseValue(toDouble, doc, p, depth, init);
    var q := ParseValue(toDouble, doc[s..e], p - s, less, small);
    PutArray(inner, outer, key, q.node, r.node, s);
    NextLocal(doc, s, e, r.pos);
    var t := SkipComments(doc, ReadToken(doc, r.pos));
    if t.kind == ArraySeparator {
      ElementsLocal(toDouble, doc, s, e, t.end, depth, less,
                    outer.(payload := ArrayValue(Put(outer.payload.items, key, r.node))),
                    inner.(payload := ArrayValue(Put(inner.payload.items, key, q.node))), index + 1);
    }
  }

  /** A list of elements that ends inside the slice read its first element, and the token after it, inside the slice. */
  lemma ElementEnds(toDouble: ToDouble, doc: string, p: nat, depth: nat, node: Node, index: nat, e: nat)
    requires p <= |doc| && node.payload.ArrayValue? && SucceedsBy(ParseElements(toDouble, doc, p, depth, node, index), e)
    ensures var r := ParseValue(toDouble, doc, p, depth, Child(node.payload.items, Index(index)));
            SucceedsBy(r, e) && SkipComments(doc, ReadToken(doc, r.pos)).end <= e
  {
    hide ReadToken, SkipComments, ParseValue, Child, Put, Recover;
  }

  // ---------------------------------------------------------------- faithful trees

  /** The node's text, read on its own, gives the node with offsets counted from its start. */
  ghost predicate RereadsAs(toDouble: ToDouble, doc: string, n: Node)
    requires n.start < n.limit <= |doc|
  {
    var r := ParseValue(toDouble, doc[n.start..n.limit], 0, 0, NullNode);
    r.Ret? && r.ok && r.pos == n.limit - n.start && ShiftNode(r.node, n.start) == n
  }

  ghost predicate Faithful(toDouble: ToDouble, doc: string, n: Node)
    decreases n
  {
    && n.start < n.limit <= |doc|
    && RereadsAs(toDouble, doc, n)
    && match n.payload
       case ArrayValue(es) => FaithfulEntries(toDouble, doc, es, n.start + 1, n.limit - 1)
       case ObjectValue(es) => FaithfulEntries(toDouble, doc, es, n.start + 1, n.limit - 1)
       case _ => true
  }

  /** All nodes are faithful, lie between `lo` and `hi`, and do not overlap. */
  ghost predicate FaithfulEntries(toDouble: ToDouble, doc: string, es: Entries, lo: nat, hi: nat)
    decreases es
  {
    es.Cons? ==>
      && Faithful(toDouble, doc, es.node) && lo <= es.node.start && es.node.limit <= hi
      && ApartFrom(es.node, es.rest) && FaithfulEntries(toDouble, doc, es.rest, lo, hi)
  }

  predicate Apart(a: Node, b: Node) { a.limit <= b.start || b.limit <= a.start }

  predicate ApartFrom(n: Node, es: Entries) {
    es.Cons? ==> Apart(n, es.node) && ApartFrom(n, es.rest)
  }

  /** A node read later than everything in `es` is apart from all of it. */
  lemma {:induction false} LaterIsApart(toDouble: ToDouble, doc: string, es: Entries, lo: nat, hi: nat, n: Node)
    requires FaithfulEntries(toDouble, doc, es, lo, hi) && hi <= n.start
    ensures ApartFrom(n, es)
    decreases es
  {
    hide Faithful;
    if es.Cons? { LaterIsApart(toDouble, doc, es.rest, lo, hi, n); }
  }

  lemma {:induction false} PutApart(a: Node, es: Entries, key: CZString, n: Node)
    requires ApartFrom(a, es) && Apart(a, n)
    ensures ApartFrom(a, Put(es, key, n))
    decreases es
  {
    if es.Cons? { PutApart(a, es.rest, key, n); }
  }

  lemma {:induction false} WiderBound(toDouble: ToDouble, doc: string, es: Entries, lo: nat, hi: nat, wider: nat)
    requires FaithfulEntries(toDouble, doc, es, lo, hi) && hi <= wider
    ensures FaithfulEntries(toDouble, doc, es, lo, wider)
    decreases es
  {
    hide Faithful;
    if es.Cons? { WiderBound(toDouble, doc, es.rest, lo, hi, wider); }
  }

  /** Adding or overwriting a member keeps the ranges apart, as the new one was read last. */
  lemma {:induction false} PutFaithful(toDouble: ToDouble, doc: string, es: Entries, lo: nat, hi: nat, key: CZString, n: Node)
    requires FaithfulEntries(toDouble, doc, es, lo, hi) && Faithful(toDouble, doc, n) && lo <= hi <= n.start
    ensures FaithfulEntries(toDouble, doc, Put(es, key, n), lo, n.limit)
    decreases es
  {
    assert hi <= n.limit by { FaithfulSpan(toDouble, doc, n); }
    WiderBound(toDouble, doc, es, lo, hi, n.limit);
    LaterIsApart(toDouble, doc, es, lo, hi, n);
    hide Faithful;
    if es.Cons? {
      if es.key == key || KeyLess(key, es.key) {
        if es.rest.Cons? { WiderBound(toDouble, doc, es.rest, lo, hi, n.limit); }
      } else {
        PutFaithful(toDouble, doc, es.rest, lo, hi, key, n);
        PutApart(es.node, es.rest, key, n);
      }
    }
  }

  lemma FaithfulSpan(toDouble: ToDouble, doc: string, n: Node)
    requires Faithful(toDouble, doc, n)
    ensures n.start < n.limit <= |doc|
  {
  }

  /** Reading from past the leading spaces gives the same value. */
  lemma StartOfValue(toDouble: ToDouble, doc: string, p: nat, depth: nat, init: Node)
    requires p <= |doc|
    ensures var r := ParseValue(toDouble, doc, p, depth, init);
            r.Ret? && r.ok ==> r.node.start == SkipSpaces(doc, p) && r.node.limit == r.pos
  {
  }

  lemma {:induction false} ReadsFaithfully(toDouble: ToDouble, doc: string, p: nat, depth: nat, init: Node)
    requires p <= |doc| && SucceedsBy(ParseValue(toDouble, doc, p, depth, init), |doc|)
    ensures Faithful(toDouble, doc, ParseValue(toDouble, doc, p, depth, init).node)
    decreases |doc| - p, 0
  {
    hide ReadToken, ReadScalar, ParseValue, ParseMembers, ParseArray, Shift;
    var r := ParseValue(toDouble, doc, p, depth, init);
    var t := ReadToken(doc, p);
    ParseValueCases(toDouble, doc, p, depth, init);
    StartOfValue(toDouble, doc, p, depth, init);
    ValueSkip(toDouble, doc, p, depth, init);
    ValueLocal(toDouble, doc, r.node.start, r.pos, r.node.start, depth, 0, init, NullNode);
    if t.kind == ObjectBegin {
      MembersFaithful(toDouble, doc, t.end, depth + 1, Node(ObjectValue(Nil), t.start, init.limit), "");
    } else if t.kind == ArrayBegin {
      ArrayFaithful(toDouble, doc, t.end, depth + 1, Node(ArrayValue(Nil), t.start, init.limit));
    } else {
      ScalarHasNoContents(toDouble, doc, t, init);
    }
  }

  lemma ScalarHasNoContents(toDouble: ToDouble, doc: string, t: Token, init: Node)
    requires t.start <= t.end <= |doc| && (t.kind == String ==> t.end - t.start >= 2)
    requires ReadScalar(toDouble, doc, t, init).ok
    ensures var p := ReadScalar(toDouble, doc, t, init).node.payload; !p.ArrayValue? && !p.ObjectValue?
  {
  }

  lemma {:induction false} MembersFaithful(toDouble: ToDouble, doc: string, p: nat, depth: nat, node: Node, name: string)
    requires p <= |doc| && node.payload.ObjectValue? && node.start < p
    requires FaithfulEntries(toDouble, doc, node.payload.members, node.start + 1, p)
    requires SucceedsBy(ParseMembers(toDouble, doc, p, depth, node, name), |doc|)
    ensures var r := ParseMembers(toDouble, doc, p, depth, node, name);
            FaithfulEntries(toDouble, doc, r.node.payload.members, node.start + 1, r.pos - 1)
    decreases |doc| - p, 2
  {
    hide ReadToken, SkipComments, ParseMember, ParseMembers, FaithfulEntries;
    var t := SkipComments(doc, ReadToken(doc, p));
    ParseMembersCases(toDouble, doc, p, depth, node, name);
    if t.kind == String {
      MemberFaithful(toDouble, doc, p, t, depth, node);
      var turn := ParseMember(toDouble, doc, t, depth, node);
      if turn.More? { MembersFaithful(toDouble, doc, turn.pos, depth, turn.node, turn.name); }
    } else {
      WiderBound(toDouble, doc, node.payload.members, node.start + 1, p, t.end - 1);
    }
  }

  lemma {:induction false} MemberFaithful(toDouble: ToDouble, doc: string, p: nat, t: Token, depth: nat, node: Node)
    requires p < t.start + 2 <= t.end <= |doc| && p <= t.start && node.payload.ObjectValue? && node.start < p
    requires FaithfulEntries(toDouble, doc, node.payload.members, node.start + 1, p)
    ensures match ParseMember(toDouble, doc, t, depth, node)
            case Stop(r) => SucceedsBy(r, |doc|) ==> FaithfulEntries(toDouble, doc, r.node.payload.members, node.start + 1, r.pos - 1)
            case More(pos, grown, name) => FaithfulEntries(toDouble, doc, grown.payload.members, node.start + 1, pos)
    decreases |doc| - t.end, 1
  {
    hide ReadToken, SkipComments, ParseValue, DecodeString, Child, Put, FaithfulEntries, Faithful;
    var d := DecodeString(Text(doc, t));
    if d.Decoded? {
      var colon := ReadToken(doc, t.end);
      var key := Name(d.value);
      var init := Child(node.payload.members, key);
      var r := ParseValue(toDouble, doc, colon.end, depth, init);
      if r.Ret? && r.ok {
        ReadsFaithfully(toDouble, doc, colon.end, depth, init);
        PutFaithful(toDouble, doc, node.payload.members, node.start + 1, p, key, r.node);
        var comma := SkipComments(doc, ReadToken(doc, r.pos));
        WiderBound(toDouble, doc, Put(node.payload.members, key, r.node), node.start + 1, r.pos, comma.end);
        if comma.kind == ObjectEnd {
          WiderBound(toDouble, doc, Put(node.payload.members, key, r.node), node.start + 1, r.pos, comma.end - 1);
        }
      }
    }
  }

  lemma {:induction false} ArrayFaithful(toDouble: ToDouble, doc: string, p: nat, depth: nat, node: Node)
    requires p <= |doc| && node.payload == ArrayValue(Nil) && node.start < p
    requires SucceedsBy(ParseArray(toDouble, doc, p, depth, node), |doc|)
    ensures var r := ParseArray(toDouble, doc, p, depth, node);
            FaithfulEntries(toDouble, doc, r.node.payload.items, node.start + 1, r.pos - 1)
    decreases |doc| - p, 2
  {
    hide ReadToken, SkipSpaces, ParseElements;
    var start := SkipSpaces(doc, p);
    if Peek(doc, start) != ']' {
      ElementsFaithful(toDouble, doc, start, depth, node, 0);
    }
  }

  lemma {:induction false} ElementsFaithful(toDouble: ToDouble, doc: string, p: nat, depth: nat, node: Node, index: nat)
    requires p <= |doc| && node.payload.ArrayValue? && node.start < p
    requires FaithfulEntries(toDouble, doc, node.payload.items, node.start + 1, p)
    requires SucceedsBy(ParseElements(toDouble, doc, p, depth, node, index), |doc|)
    ensures var r := ParseElements(toDouble, doc, p, depth, node, index);
            FaithfulEntries(toDouble, doc, r.node.payload.items, node.start + 1, r.pos - 1)
    decreases |doc| - p, 1
  {
    hide ReadToken, SkipComments, ParseValue, Child, Put, FaithfulEntries, Faithful;
    var key := Index(index);
    var init := Child(node.payload.items, key);
    var r := ParseValue(toDouble, doc, p, depth, init);
    ReadsFaithfully(toDouble, doc, p, depth, init);
    PutFaithful(toDouble, doc, node.payload.items, node.start + 1, p, key, r.node);
    var grown := Put(node.payload.items, key, r.node);
    var t := SkipComments(doc, ReadToken(doc, r.pos));
    if t.kind == ArraySeparator {
      WiderBound(toDouble, doc, grown, node.start + 1, r.pos, t.end);
      ElementsFaithful(toDouble, doc, t.end, depth, node.(payload := ArrayValue(grown)), index + 1);
    } else {
      WiderBound(toDouble, doc, grown, node.start + 1, r.pos, t.end - 1);
    }
  }

  /** After a successful parse, every node of the tree is faithful to the document. */
  lemma ParseIsFaithful(toDouble: ToDouble, doc: string, root: Node)
    requires var result := Parse(toDouble, doc, root); result.Parsed? && result.ok
    ensures Faithful(toDouble, doc, Parse(toDouble, doc, root).root)
  {
    ReadsFaithfully(toDouble, doc, 0, 0, root);
  }
}
