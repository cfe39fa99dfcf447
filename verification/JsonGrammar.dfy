/**
 What the strict reader computes, as functions of the document, a position, the nesting
 and the node under construction.  The imperative reader is proved equal to these functions.
 */
module JsonGrammar {
  import opened Basics
  import opened JsonValue
  import opened JsonLexer
  import opened JsonText

  const STACK_LIMIT := 1000

  datatype ErrorInfo = ErrorInfo(message: Message, token: Token, extra: Option<nat>)

  /** Thrown: the stack limit was exceeded.  Otherwise the flag, the node, the read position and the errors added. */
  datatype Outcome = Thrown | Ret(ok: bool, node: Node, pos: nat, errors: seq<ErrorInfo>)

  type ToDouble = string -> Option<Double>

  function Text(doc: string, t: Token): string
    requires t.start <= t.end <= |doc|
  {
    doc[t.start..t.end]
  }

  function Spanned(p: Payload, t: Token): Node { Node(p, t.start, t.end) }

  /** A syntax error, after which the reader skips past `skipUntil`. */
  function Failure(doc: string, message: Message, t: Token, node: Node, skipUntil: TokenType): Outcome
    requires t.end <= |doc|
  {
    Ret(false, node, Recover(doc, t.end, skipUntil), [ErrorInfo(message, t, None)])
  }

  /** The failure of a nested value, which has already reported its error. */
  function Propagate(doc: string, r: Outcome, node: Node, skipUntil: TokenType): Outcome
    requires r.Ret? && r.pos <= |doc|
  {
    Ret(false, node, Recover(doc, r.pos, skipUntil), r.errors)
  }

  function StringError(t: Token, d: Decoded): ErrorInfo
    requires d.Failed?
  {
    ErrorInfo(d.message, t, Some(t.start + d.at))
  }

  function NumberError(doc: string, t: Token): ErrorInfo
    requires t.start <= t.end <= |doc|
  {
    ErrorInfo(NotANumber(Text(doc, t)), t, None)
  }

  /** The position stays inside the document, a success moves it, and exactly a failure adds one error. */
  predicate Regular(r: Outcome, doc: string, pos: nat) {
    r.Ret? ==>
      && pos <= r.pos <= |doc|
      && (r.ok ==> pos < r.pos && r.errors == [])
      && (!r.ok ==> |r.errors| == 1)
  }

  function ReadScalar(toDouble: ToDouble, doc: string, t: Token, init: Node): (r: Outcome)
    requires t.start <= t.end <= |doc|
    requires t.kind == String ==> t.end - t.start >= 2
    ensures r.Ret? && r.pos == t.end
    ensures r.ok ==> r.errors == [] && r.node.start == t.start && r.node.limit == t.end
    ensures !r.ok ==> |r.errors| == 1
  {
    match t.kind
    case Number =>
      var p := DecodeNumber(toDouble, Text(doc, t));
      if p.Some? then Ret(true, Spanned(p.value, t), t.end, [])
      else Ret(false, init, t.end, [NumberError(doc, t)])
    case String =>
      var d := DecodeString(Text(doc, t));
      if d.Decoded? then Ret(true, Spanned(StringValue(d.value), t), t.end, [])
      else Ret(false, init, t.end, [StringError(t, d)])
    case True => Ret(true, Spanned(BoolValue(true), t), t.end, [])
    case False => Ret(true, Spanned(BoolValue(false), t), t.end, [])
    case Null => Ret(true, Spanned(NullValue, t), t.end, [])
    case _ => Ret(false, Spanned(init.payload, t), t.end, [ErrorInfo(ValueExpected, t, None)])
  }

  function WithLimit(r: Outcome): (s: Outcome)
    ensures s.Ret? <==> r.Ret?
    ensures s.Ret? ==> s.pos == r.pos && s.errors == r.errors && s.ok == r.ok && s.node == r.node.(limit := r.pos)
  {
    if r.Ret? then r.(node := r.node.(limit := r.pos)) else r
  }

  /** readValue at nesting `depth`, with `init` on top of the node stack. */
  function ParseValue(toDouble: ToDouble, doc: string, pos: nat, depth: nat, init: Node): (r: Outcome)
    requires pos <= |doc|
    ensures Regular(r, doc, pos)
    ensures r.Ret? && r.ok ==> pos <= r.node.start < r.node.limit == r.pos
    decreases |doc| - pos, 0
  {
    if depth >= STACK_LIMIT then Thrown
    else
      var t := ReadToken(doc, pos);
      if t.kind == ObjectBegin then
        WithLimit(ParseMembers(toDouble, doc, t.end, depth + 1, Node(ObjectValue(Nil), t.start, init.limit), ""))
      else if t.kind == ArrayBegin then
        WithLimit(ParseArray(toDouble, doc, t.end, depth + 1, Node(ArrayValue(Nil), t.start, init.limit)))
      else
        StringTokenLength(doc, pos);
        ReadScalar(toDouble, doc, t, init)
  }

  /** The loop of readObject, entered with the members read so far and the last name read. */
  function ParseMembers(toDouble: ToDouble, doc: string, pos: nat, depth: nat, node: Node, name: string): (r: Outcome)
    requires pos <= |doc| && node.payload.ObjectValue?
    ensures Regular(r, doc, pos)
    ensures r.Ret? ==> r.node.start == node.start && r.node.payload.ObjectValue?
    decreases |doc| - pos, 2
  {
    var t := SkipComments(doc, ReadToken(doc, pos));
    if t.kind == ObjectEnd && name == "" then Ret(true, node, t.end, [])
    else if t.kind != String then Failure(doc, MissingName, t, node, ObjectEnd)
    else
      StringTokenLengthAfterComments(doc, pos);
      match ParseMember(toDouble, doc, t, depth, node)
      case Stop(r) => r
      case More(next, grown, last) => ParseMembers(toDouble, doc, next, depth, grown, last)
  }

  /** What one turn of readObject's loop leads to: an outcome, or another turn. */
  datatype Turn = Stop(outcome: Outcome) | More(pos: nat, node: Node, name: string)

  /** One member, from its name token to the token after its value. */
  function ParseMember(toDouble: ToDouble, doc: string, t: Token, depth: nat, node: Node): (turn: Turn)
    requires t.start + 2 <= t.end <= |doc| && node.payload.ObjectValue?
    ensures turn.Stop? ==> Regular(turn.outcome, doc, t.end)
    ensures turn.Stop? && turn.outcome.Ret? ==> turn.outcome.node.start == node.start && turn.outcome.node.payload.ObjectValue?
    ensures turn.More? ==> t.end < turn.pos <= |doc| && turn.node.start == node.start && turn.node.payload.ObjectValue?
    decreases |doc| - t.end, 1
  {
    var d := DecodeString(Text(doc, t));
    if d.Failed? then Stop(Ret(false, node, Recover(doc, t.end, ObjectEnd), [StringError(t, d)]))
    else
      var colon := ReadToken(doc, t.end);
      if colon.kind != MemberSeparator then Stop(Failure(doc, MissingColon, colon, node, ObjectEnd))
      else
        var key := Name(d.value);
        var r := ParseValue(toDouble, doc, colon.end, depth, Child(node.payload.members, key));
        if r.Thrown? then Stop(Thrown)
        else
          var grown := node.(payload := ObjectValue(Put(node.payload.members, key, r.node)));
          if !r.ok then Stop(Propagate(doc, r, grown, ObjectEnd))
          else AfterMember(doc, r.pos, grown, d.value)
  }

  /** What follows a member: a comma, the end of the object, or a comment and then any token. */
  function AfterMember(doc: string, pos: nat, node: Node, name: string): Turn
    requires pos <= |doc|
  {
    var first := ReadToken(doc, pos);
    if first.kind != ObjectEnd && first.kind != ArraySeparator && first.kind != Comment then
      Stop(Failure(doc, MissingObjectSeparator, first, node, ObjectEnd))
    else
      var comma := SkipComments(doc, first);
      if comma.kind == ObjectEnd then Stop(Ret(true, node, comma.end, []))
      else More(comma.end, node, name)
  }

  /** readArray past its opening bracket: the peek for an empty array, then the loop. */
  function ParseArray(toDouble: ToDouble, doc: string, pos: nat, depth: nat, node: Node): (r: Outcome)
    requires pos <= |doc| && node.payload.ArrayValue?
    ensures Regular(r, doc, pos)
    ensures r.Ret? ==> r.node.start == node.start && r.node.payload.ArrayValue?
    decreases |doc| - pos, 2
  {
    var start := SkipSpaces(doc, pos);
    if Peek(doc, start) == ']' then Ret(true, node, ReadToken(doc, start).end, [])
    else ParseElements(toDouble, doc, start, depth, node, 0)
  }

  function ParseElements(toDouble: ToDouble, doc: string, pos: nat, depth: nat, node: Node, index: nat): (r: Outcome)
    requires pos <= |doc| && node.payload.ArrayValue?
    ensures Regular(r, doc, pos)
    ensures r.Ret? ==> r.node.start == node.start && r.node.payload.ArrayValue?
    decreases |doc| - pos, 1
  {
    var key := Index(index);
    var r := ParseValue(toDouble, doc, pos, depth, Child(node.payload.items, key));
    if r.Thrown? then Thrown
    else
      var grown := node.(payload := ArrayValue(Put(node.payload.items, key, r.node)));
      if !r.ok then Propagate(doc, r, grown, ArrayEnd)
      else
        var t := SkipComments(doc, ReadToken(doc, r.pos));
        if t.kind == ArrayEnd then Ret(true, grown, t.end, [])
        else if t.kind != ArraySeparator then Failure(doc, MissingArraySeparator, t, grown, ArrayEnd)
        else ParseElements(toDouble, doc, t.end, depth, grown, index + 1)
  }

  /** A string token holds both its quotes. */
  lemma StringTokenLength(doc: string, pos: nat)
    requires pos <= |doc|
    ensures ReadToken(doc, pos).kind == String ==> ReadToken(doc, pos).end - ReadToken(doc, pos).start >= 2
  {
  }

  lemma {:induction false} SkippedStringLength(doc: string, t: Token)
    requires t.start <= t.end <= |doc|
    requires t.start == t.end ==> t.kind == EndOfStream
    requires t.kind == String ==> t.end - t.start >= 2
    ensures var s := SkipComments(doc, t); s.kind == String ==> s.end - s.start >= 2
    decreases |doc| - t.end, t.kind == Comment
  {
    if t.kind == Comment {
      StringTokenLength(doc, t.end);
      SkippedStringLength(doc, ReadToken(doc, t.end));
    }
  }

  lemma StringTokenLengthAfterComments(doc: string, pos: nat)
    requires pos <= |doc|
    ensures var s := SkipComments(doc, ReadToken(doc, pos)); s.kind == String ==> s.end - s.start >= 2
  {
    StringTokenLength(doc, pos);
    SkippedStringLength(doc, ReadToken(doc, pos));
  }

  /** readValue by the kind of its first token. */
  lemma ParseValueCases(toDouble: ToDouble, doc: string, pos: nat, depth: nat, init: Node)
    requires pos <= |doc|
    ensures var t := ReadToken(doc, pos);
            && (t.kind == String ==> t.end - t.start >= 2)
            && ParseValue(toDouble, doc, pos, depth, init) ==
               if depth >= STACK_LIMIT then Thrown
               else if t.kind == ObjectBegin then
                 WithLimit(ParseMembers(toDouble, doc, t.end, depth + 1, Node(ObjectValue(Nil), t.start, init.limit), ""))
               else if t.kind == ArrayBegin then
                 WithLimit(ParseArray(toDouble, doc, t.end, depth + 1, Node(ArrayValue(Nil), t.start, init.limit)))
               else ReadScalar(toDouble, doc, t, init)
  {
  }

  /** readObject's loop by its next token that is no comment. */
  lemma ParseMembersCases(toDouble: ToDouble, doc: string, pos: nat, depth: nat, node: Node, name: string)
    requires pos <= |doc| && node.payload.ObjectValue?
    ensures var t := SkipComments(doc, ReadToken(doc, pos));
            && (t.kind == String ==> t.end - t.start >= 2)
            && ParseMembers(toDouble, doc, pos, depth, node, name) ==
               if t.kind == ObjectEnd && name == "" then Ret(true, node, t.end, [])
               else if t.kind != String then Failure(doc, MissingName, t, node, ObjectEnd)
               else match ParseMember(toDouble, doc, t, depth, node)
                    case Stop(r) => r
                    case More(next, grown, last) => ParseMembers(toDouble, doc, next, depth, grown, last)
  {
    StringTokenLengthAfterComments(doc, pos);
    hide ReadToken, SkipComments, ParseMember, Failure;
  }

  /** A member that succeeds, and what it leads to. */
  lemma SucceedingMember(toDouble: ToDouble, doc: string, t: Token, depth: nat, node: Node)
    requires t.start + 2 <= t.end <= |doc| && node.payload.ObjectValue?
    ensures var turn, d := ParseMember(toDouble, doc, t, depth, node), DecodeString(Text(doc, t));
            var colon := ReadToken(doc, t.end);
            var key := Name(if d.Decoded? then d.value else "");
            var r := ParseValue(toDouble, doc, colon.end, depth, Child(node.payload.members, key));
            if d.Decoded? && colon.kind == MemberSeparator && r.Ret? && r.ok then
              turn == AfterMember(doc, r.pos, node.(payload := ObjectValue(Put(node.payload.members, key, r.node))), d.value)
            else turn.Stop? && (turn.outcome.Ret? ==> !turn.outcome.ok)
  {
    hide ReadToken, ParseValue, DecodeString, Text, Child, Put, AfterMember;
  }

  /** readArray's loop by the element it reads and the next token that is no comment. */
  lemma ParseElementsCases(toDouble: ToDouble, doc: string, pos: nat, depth: nat, node: Node, index: nat)
    requires pos <= |doc| && node.payload.ArrayValue?
    ensures var r := ParseValue(toDouble, doc, pos, depth, Child(node.payload.items, Index(index)));
            if r.Ret? && r.ok then
              var grown := node.(payload := ArrayValue(Put(node.payload.items, Index(index), r.node)));
              var t := SkipComments(doc, ReadToken(doc, r.pos));
              ParseElements(toDouble, doc, pos, depth, node, index) ==
              if t.kind == ArrayEnd then Ret(true, grown, t.end, [])
              else if t.kind != ArraySeparator then Failure(doc, MissingArraySeparator, t, grown, ArrayEnd)
              else ParseElements(toDouble, doc, t.end, depth, grown, index + 1)
            else
              var all := ParseElements(toDouble, doc, pos, depth, node, index); all.Ret? ==> !all.ok
  {
    hide ReadToken, SkipComments, ParseValue, Child, Put, Failure;
  }

  // ---------------------------------------------------------------- parse

  datatype ParseResult = ParseThrown | Parsed(ok: bool, root: Node, errors: seq<ErrorInfo>)

  /** Reader::parse in strict mode; a successful parse reports no error, a failed one at least one. */
  function Parse(toDouble: ToDouble, doc: string, root: Node): (result: ParseResult)
    ensures result.Parsed? ==> (result.ok <==> result.errors == []) && |result.errors| <= 2
  {
    var r := ParseValue(toDouble, doc, 0, 0, root);
    if r.Thrown? then ParseThrown
    else if !r.node.payload.ArrayValue? && !r.node.payload.ObjectValue? then
      Parsed(false, r.node, r.errors + [ErrorInfo(BadRoot, Token(Error, 0, |doc|), None)])
    else Parsed(r.ok, r.node, r.errors)
  }
}
