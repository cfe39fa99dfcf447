/**
 The strict reader: one object whose read position, node stack, error list and nesting counter
 its methods update.  Each method is proved equal to a function of the document.

 The node stack holds values instead of pointers into the tree: popping a node stores it back
 into its parent.
 */
module JsonReader {
  import opened Basics
  import opened JsonValue
  import opened JsonLexer
  import opened JsonText
  import opened JsonGrammar

  /** How far a failed read leaves the nesting counter too high: the path that reports a missing value skips the decrement. */
  function Leak(r: Outcome): nat
    requires r.Ret?
  {
    if !r.ok && r.errors != [] && r.errors[0].message == ValueExpected then 1 else 0
  }

  function EntriesOf(p: Payload): Entries
    requires p.ObjectValue? || p.ArrayValue?
  {
    if p.ObjectValue? then p.members else p.items
  }

  function WithEntry(p: Payload, key: CZString, node: Node): Payload
    requires p.ObjectValue? || p.ArrayValue?
  {
    if p.ObjectValue? then ObjectValue(Put(p.members, key, node)) else ArrayValue(Put(p.items, key, node))
  }

  class Reader {
    const toDouble: ToDouble
    var document_: string
    var current_: nat
    var nodes_: seq<Node>
    var errors_: seq<ErrorInfo>
    var stackDepth_g: nat

    constructor (toDouble: ToDouble)
      ensures this.toDouble == toDouble
      ensures document_ == "" && current_ == 0 && nodes_ == [] && errors_ == [] && stackDepth_g == 0
    {
      this.toDouble := toDouble;
      document_, current_, nodes_, errors_, stackDepth_g := "", 0, [], [], 0;
    }

    ghost predicate Valid()
      reads this
    {
      current_ <= |document_|
    }

    function CurrentValue(): Node
      requires nodes_ != []
      reads this
    {
      nodes_[|nodes_| - 1]
    }

    // -------------------------------------------------------------- scanning

    method GetNextChar() returns (c: char)
      requires Valid()
      modifies this`current_
      ensures Valid()
      ensures c == Peek(document_, old(current_)) && current_ == Advance(document_, old(current_))
    {
      if current_ == |document_| { return '\0'; }
      c := document_[current_];
      current_ := current_ + 1;
    }

    method SkipSpaces()
      requires Valid()
      modifies this`current_
      ensures Valid() && current_ == JsonLexer.SkipSpaces(document_, old(current_))
    {
      while current_ != |document_|
        invariant Valid()
        invariant JsonLexer.SkipSpaces(document_, current_) == JsonLexer.SkipSpaces(document_, old(current_))
        decreases |document_| - current_
      {
        var c := document_[current_];
        if c == ' ' || c == '\t' || c == '\r' || c == '\n' { current_ := current_ + 1; } else { break; }
      }
    }

    method Match(pattern: string) returns (ok: bool)
      requires Valid()
      modifies this`current_
      ensures Valid() && Scan(ok, current_) == LiteralEnd(document_, old(current_), pattern)
    {
      if |document_| - current_ < |pattern| { return false; }
      var index := |pattern|;
      while index > 0
        invariant 0 <= index <= |pattern| && current_ == old(current_)
        invariant document_[current_ + index..current_ + |pattern|] == pattern[index..]
      {
        index := index - 1;
        if document_[current_ + index] != pattern[index] {
          assert document_[current_..current_ + |pattern|][index] != pattern[index];
          return false;
        }
      }
      current_ := current_ + |pattern|;
      return true;
    }

    method ReadCStyleComment() returns (ok: bool)
      requires Valid()
      modifies this`current_
      ensures Valid()
      ensures var stop := CStyleStop(document_, old(current_));
              ok == (Peek(document_, stop) == '/') && current_ == Advance(document_, stop)
    {
      while current_ != |document_|
        invariant Valid()
        invariant CStyleStop(document_, current_) == CStyleStop(document_, old(current_))
        decreases |document_| - current_
      {
        var c := GetNextChar();
        if c == '*' && Peek(document_, current_) == '/' {
          assert CStyleStop(document_, old(current_)) == current_;
          c := GetNextChar();
          return c == '/';
        }
      }
      var c := GetNextChar();
      return c == '/';
    }

    method ReadCppStyleComment() returns (ok: bool)
      requires Valid()
      modifies this`current_
      ensures Valid() && ok && current_ == CppStyleEnd(document_, old(current_))
    {
      while current_ != |document_|
        invariant Valid()
        invariant CppStyleEnd(document_, current_) == CppStyleEnd(document_, old(current_))
        decreases |document_| - current_
      {
        var c := GetNextChar();
        if c == '\n' { return true; }
        if c == '\r' {
          if current_ != |document_| && document_[current_] == '\n' { c := GetNextChar(); }
          return true;
        }
      }
      return true;
    }

    method ReadComment() returns (ok: bool)
      requires Valid()
      modifies this`current_
      ensures Valid() && Scan(ok, current_) == CommentEnd(document_, old(current_))
    {
      var c := GetNextChar();
      ok := false;
      if c == '*' {
        ok := ReadCStyleComment();
      } else if c == '/' {
        ok := ReadCppStyleComment();
      }
    }

    /** A run of digits from `p` on; `c` is the character that ends it, at the read position. */
    method ReadDigits(p: nat) returns (c: char, next: nat)
      requires p <= |document_|
      modifies this`current_
      ensures Valid() && current_ == SkipDigits(document_, p)
      ensures c == Peek(document_, current_) && next == Advance(document_, current_)
    {
      next := p;
      c := '0';
      current_ := p;
      while '0' <= c <= '9'
        invariant next <= |document_|
        invariant IsDigit(c) ==> SkipDigits(document_, next) == SkipDigits(document_, p)
        invariant !IsDigit(c) ==> Valid() && current_ == SkipDigits(document_, p) && c == Peek(document_, current_) && next == Advance(document_, current_)
        decreases |document_| - next, IsDigit(c)
      {
        current_ := next;
        if current_ < |document_| {
          c := document_[next];
          next := next + 1;
        } else {
          c := '\0';
        }
      }
    }

    method ReadNumber()
      requires Valid()
      modifies this`current_
      ensures Valid() && current_ == NumberEnd(document_, old(current_))
    {
      var c, p := ReadDigits(current_);
      if c == '.' { c, p := ReadDigits(p); }
      assert current_ == FractionEnd(document_, SkipDigits(document_, old(current_)));
      assert c == Peek(document_, current_) && p == Advance(document_, current_);
      if c == 'e' || c == 'E' {
        current_ := p;
        if current_ < |document_| && (document_[current_] == '+' || document_[current_] == '-') { p := p + 1; }
        assert p == SignEnd(document_, current_);
        c, p := ReadDigits(p);
      }
    }

    method ReadString() returns (ok: bool)
      requires Valid()
      modifies this`current_
      ensures Valid() && Scan(ok, current_) == StringEnd(document_, old(current_))
    {
      var c := '\0';
      while current_ != |document_|
        invariant Valid() && c != '"'
        invariant StringEnd(document_, current_) == StringEnd(document_, old(current_))
        decreases |document_| - current_
      {
        c := GetNextChar();
        if c == '\\' {
          var skipped := GetNextChar();
        } else if c == '"' {
          break;
        }
      }
      return c == '"';
    }

    method ReadToken() returns (t: Token)
      requires Valid()
      modifies this`current_
      ensures Valid() && t == JsonLexer.ReadToken(document_, old(current_)) && current_ == t.end
    {
      SkipSpaces();
      var start := current_;
      var kind := Error;
      var ok := true;
      var c := GetNextChar();
      match c {
      case '{' => kind := ObjectBegin;
      case '}' => kind := ObjectEnd;
      case '[' => kind := ArrayBegin;
      case ']' => kind := ArrayEnd;
      case '"' => kind := String; ok := ReadString();
      case '/' => kind := Comment; ok := ReadComment();
      case 't' => kind := True; ok := Match("rue");
      case 'f' => kind := False; ok := Match("alse");
      case 'n' => kind := Null; ok := Match("ull");
      case ',' => kind := ArraySeparator;
      case ':' => kind := MemberSeparator;
      case '\0' => kind := EndOfStream;
      case _ =>
        if '0' <= c <= '9' || c == '-' { kind := Number; ReadNumber(); } else { ok := false; }
      }
      if !ok { kind := Error; }
      t := Token(kind, start, current_);
    }

    /** The comment loops of readObject and readArray. */
    method ReadTokenAfterComments(first: Token) returns (t: Token)
      requires Valid() && first.start <= first.end == current_
      requires first.start == first.end ==> first.kind == EndOfStream
      modifies this`current_
      ensures Valid() && t == SkipComments(document_, first) && current_ == t.end
    {
      t := first;
      while t.kind == Comment
        invariant Valid() && t.start <= t.end == current_
        invariant t.start == t.end ==> t.kind == EndOfStream
        invariant SkipComments(document_, t) == SkipComments(document_, first)
        decreases |document_| - current_, t.kind == Comment
      {
        t := ReadToken();
      }
    }

    // -------------------------------------------------------------- errors

    method AddError(message: Message, t: Token, extra: Option<nat>) returns (ok: bool)
      modifies this`errors_
      ensures !ok && errors_ == old(errors_) + [ErrorInfo(message, t, extra)]
    {
      errors_ := errors_ + [ErrorInfo(message, t, extra)];
      return false;
    }

    method RecoverFromError(skipUntil: TokenType) returns (ok: bool)
      requires Valid()
      modifies this`current_, this`errors_
      ensures Valid() && !ok && errors_ == old(errors_) && current_ == Recover(document_, old(current_), skipUntil)
    {
      var errorCount := |errors_|;
      while true
        invariant Valid() && errors_ == old(errors_)
        invariant Recover(document_, current_, skipUntil) == Recover(document_, old(current_), skipUntil)
        decreases |document_| - current_
      {
        var skip := ReadToken();
        if skip.kind == skipUntil || skip.kind == EndOfStream { break; }
      }
      errors_ := errors_[..errorCount];
      return false;
    }

    method AddErrorAndRecover(message: Message, t: Token, skipUntil: TokenType) returns (ok: bool)
      requires Valid() && current_ == t.end
      modifies this`current_, this`errors_
      ensures Valid() && !ok && errors_ == old(errors_) + [ErrorInfo(message, t, None)]
      ensures current_ == Recover(document_, t.end, skipUntil)
    {
      ok := AddError(message, t, None);
      ok := RecoverFromError(skipUntil);
    }

    // -------------------------------------------------------------- decoding

    method DecodeDouble(t: Token) returns (decoded: Option<Payload>)
      requires t.start <= t.end <= |document_|
      modifies this`errors_
      ensures var r := toDouble(Text(document_, t));
              if r.Some? then decoded == Some(RealValue(r.value)) && errors_ == old(errors_)
              else decoded == None && errors_ == old(errors_) + [NumberError(document_, t)]
    {
      var text := document_[t.start..t.end];
      var value := toDouble(text);
      if value.None? {
        var ok := AddError(NotANumber(text), t, None);
        return None;
      }
      return Some(RealValue(value.value));
    }

    /** The digit loop of decodeNumber: None where it turns to the double path.  The accumulator never exceeds `max`. */
    method AccumulateDigits(begin: nat, end: nat, max: nat) returns (value: Option<nat>)
      requires begin <= end <= |document_| && max >= 100
      ensures var digits := document_[begin..end];
              value == if AllDigits(digits) && DigitsValue(digits) <= max then Some(DigitsValue(digits)) else None
    {
      var threshold := max / 10;
      var current, sum := begin, 0;
      ghost var digits := document_[begin..end];
      hide DigitsValue;
      DigitsValueEmpty();
      while current < end
        invariant begin <= current <= end
        invariant AllDigits(digits[..current - begin]) && sum == DigitsValue(digits[..current - begin])
        invariant sum <= max
      {
        var c := document_[current];
        assert c == digits[current - begin];
        current := current + 1;
        if c < '0' || c > '9' { return None; }
        var digit := c as int - '0' as int;
        DigitStep(digits, current - begin - 1, max);
        if sum >= threshold {
          if sum > threshold || current != end || digit > max % 10 { return None; }
        }
        sum := sum * 10 + digit;
      }
      assert digits[..end - begin] == digits;
      return Some(sum);
    }

    method DecodeNumber(t: Token) returns (decoded: Option<Payload>)
      requires t.start < t.end <= |document_|
      modifies this`errors_
      ensures decoded == JsonText.DecodeNumber(toDouble, Text(document_, t))
      ensures errors_ == if decoded.Some? then old(errors_) else old(errors_) + [NumberError(document_, t)]
    {
      var current := t.start;
      var isNegative := document_[current] == '-';
      if isNegative { current := current + 1; }
      var maxIntegerValue := if isNegative then MAX_LARGEST_INT + 1 else MAX_LARGEST_UINT;
      assert Magnitude(Text(document_, t)) == document_[current..t.end];
      DecodedBy(toDouble, Text(document_, t));
      hide DigitsValue, JsonText.DecodeNumber, Magnitude;
      var sum := AccumulateDigits(current, t.end, maxIntegerValue);
      if sum.None? {
        decoded := DecodeDouble(t);
        return;
      }
      var value := sum.value;
      if isNegative && value == maxIntegerValue {
        decoded := Some(IntValue(-0x8000_0000_0000_0000));
      } else if isNegative {
        decoded := Some(IntValue(0 - value));
      } else if value <= MAX_INT {
        decoded := Some(IntValue(value));
      } else {
        decoded := Some(UIntValue(value));
      }
    }

    // The decoders of escapes work on the token's own text and positions in it.

    method DecodeUnicodeEscapeSequence(text: string, pos: nat, end: nat) returns (u: Unicode)
      requires pos <= end <= |text|
      ensures u == UnicodeEscape(text, pos, end)
    {
      hide HexDigits, HexValue;
      if end - pos < 4 { return BadUnicode(FourDigitsExpected, pos); }
      var unicode, current := 0, pos;
      for index := 0 to 4
        invariant current == pos + index && unicode >= 0
        invariant HexDigits(text, current, 4 - index, unicode) == HexDigits(text, pos, 4, 0)
      {
        HexStep(text, current, 4 - index, unicode);
        var c := text[current];
        current := current + 1;
        var digit := HexValue(c);
        if digit.None? { return BadUnicode(HexDigitExpected, current); }
        unicode := unicode * 16 + digit.value;
      }
      HexStop(text, current, unicode);
      return Unicode(unicode, current);
    }

    method DecodeUnicodeCodePoint(text: string, pos: nat, end: nat) returns (u: Unicode)
      requires pos <= end <= |text|
      ensures u == CodePoint(text, pos, end)
    {
      u := DecodeUnicodeEscapeSequence(text, pos, end);
      if u.Unicode? && 0xD800 <= u.code <= 0xDBFF {
        var unicode, current := u.code, u.next;
        if end - current < 6 { return BadUnicode(SixCharactersExpected, current); }
        current := current + 1;
        if text[current - 1] != '\\' { return BadUnicode(SecondHalfExpected, current); }
        current := current + 1;
        if text[current - 1] != 'u' { return BadUnicode(SecondHalfExpected, current); }
        u := DecodeUnicodeEscapeSequence(text, current, end);
        if u.Unicode? {
          u := Unicode(0x10000 + unicode % 0x400 * 0x400 + u.code % 0x400, u.next);
        }
      }
    }

    /** The escape branch of decodeString, past the backslash. */
    method DecodeEscape(text: string, pos: nat, end: nat) returns (u: Unescaped)
      requires pos <= end <= |text|
      ensures u == Unescape(text, pos, end)
    {
      if pos == end { return BadEscaped(EmptyEscape, pos); }
      var escape := text[pos];
      if escape == 'u' {
        var unicode := DecodeUnicodeCodePoint(text, pos + 1, end);
        if unicode.BadUnicode? { return BadEscaped(unicode.message, unicode.at); }
        return Unescaped(Utf8(unicode.code), unicode.next);
      }
      var plain := SimpleEscape(escape);
      if plain.None? { return BadEscaped(BadEscape, pos + 1); }
      return Unescaped([plain.value], pos + 1);
    }

    method DecodeString(t: Token) returns (d: Decoded)
      requires t.start + 2 <= t.end <= |document_|
      modifies this`errors_
      ensures d == JsonText.DecodeString(Text(document_, t))
      ensures errors_ == if d.Decoded? then old(errors_) else old(errors_) + [StringError(t, d)]
    {
      var text := document_[t.start..t.end];
      var current, end, decoded := 1, |text| - 1, "";
      PrependNothing(DecodeChars(text, current, end));
      hide Unescape, Prepend;
      while current != end
        invariant 1 <= current <= end == |text| - 1 && errors_ == old(errors_)
        invariant Prepend(decoded, DecodeChars(text, current, end)) == JsonText.DecodeString(text)
        decreases end - current
      {
        DecodeCharsStep(text, current, end, decoded);
        var c := text[current];
        current := current + 1;
        if c == '"' {
          break;
        } else if c == '\\' {
          var u := DecodeEscape(text, current, end);
          if u.BadEscaped? {
            var ok := AddError(u.message, t, Some(t.start + u.at));
            return Failed(u.message, u.at);
          }
          decoded, current := decoded + u.text, u.next;
        } else {
          decoded := decoded + [c];
        }
      }
      DecodeCharsStop(text, current, end, decoded);
      return Decoded(decoded);
    }

    // -------------------------------------------------------------- reading

    /** The outcome of a read, against the node stack and errors it started from. */
    ghost predicate Yields(r: Outcome, thrown: bool, ok: bool, nodes: seq<Node>, errors: seq<ErrorInfo>)
      requires nodes != []
      reads this
    {
      match r
      case Thrown => thrown
      case Ret(success, node, pos, added) =>
        && !thrown && ok == success && current_ == pos
        && nodes_ == nodes[..|nodes| - 1] + [node]
        && errors_ == errors + added
    }

    method SetCurrent(node: Node)
      requires nodes_ != []
      modifies this`nodes_
      ensures nodes_ == old(nodes_)[..|old(nodes_)| - 1] + [node]
    {
      nodes_ := nodes_[..|nodes_| - 1] + [node];
    }

    method ReadScalarValue(t: Token) returns (ok: bool)
      requires Valid() && nodes_ != []
      requires t.start <= t.end == current_ && (t.start == t.end ==> t.kind == EndOfStream)
      requires t.kind == String ==> t.end - t.start >= 2
      requires t.kind != ObjectBegin && t.kind != ArrayBegin
      modifies this`nodes_, this`errors_
      ensures Yields(ReadScalar(toDouble, document_, t, old(CurrentValue())), false, ok, old(nodes_), old(errors_))
    {
      var node := CurrentValue();
      ok := true;
      if t.kind == Number {
        var decoded := DecodeNumber(t);
        if decoded.Some? { SetCurrent(Spanned(decoded.value, t)); } else { ok := false; }
      } else if t.kind == String {
        var decoded := DecodeString(t);
        if decoded.Decoded? { SetCurrent(Spanned(StringValue(decoded.value), t)); } else { ok := false; }
      } else if t.kind == True {
        SetCurrent(Spanned(BoolValue(true), t));
      } else if t.kind == False {
        SetCurrent(Spanned(BoolValue(false), t));
      } else if t.kind == Null {
        SetCurrent(Spanned(NullValue, t));
      } else {
        SetCurrent(Spanned(node.payload, t));
        ok := AddError(ValueExpected, t, None);
      }
    }

    /** The node stack is restored below its top, and the nesting counter is off only by the leak of a failure. */
    method ReadValue() returns (thrown: bool, ok: bool)
      requires Valid() && nodes_ != []
      modifies this
      ensures Valid() && document_ == old(document_)
      ensures var r := ParseValue(toDouble, document_, old(current_), old(stackDepth_g), old(CurrentValue()));
              && Yields(r, thrown, ok, old(nodes_), old(errors_))
              && (r.Ret? ==> stackDepth_g == old(stackDepth_g) + Leak(r))
      decreases |document_| - current_, 0
    {
      hide JsonLexer.ReadToken, ParseValue, ParseMembers, ParseArray, ReadScalar;
      ParseValueCases(toDouble, document_, current_, stackDepth_g, CurrentValue());
      if stackDepth_g >= STACK_LIMIT { return true, false; }
      stackDepth_g := stackDepth_g + 1;
      var t := ReadToken();
      thrown, ok := false, true;
      if t.kind == ObjectBegin {
        thrown, ok := ReadObject(t);
        if thrown { return; }
        SetCurrent(CurrentValue().(limit := current_));
      } else if t.kind == ArrayBegin {
        thrown, ok := ReadArray(t);
        if thrown { return; }
        SetCurrent(CurrentValue().(limit := current_));
      } else {
        ok := ReadScalarValue(t);
        ScalarLeak(toDouble, document_, t, old(CurrentValue()));
        if t.kind != Number && t.kind != String && t.kind != True && t.kind != False && t.kind != Null { return; }
      }
      stackDepth_g := stackDepth_g - 1;
    }

    method ReadObject(tokenStart: Token) returns (thrown: bool, ok: bool)
      requires Valid() && nodes_ != []
      modifies this
      ensures Valid() && document_ == old(document_)
      ensures var r := ParseMembers(toDouble, document_, old(current_), old(stackDepth_g),
                                    Node(ObjectValue(Nil), tokenStart.start, old(CurrentValue()).limit), "");
              && Yields(r, thrown, ok, old(nodes_), old(errors_))
              && (r.Ret? ==> stackDepth_g == old(stackDepth_g) + Leak(r))
      decreases |document_| - current_, 2
    {
      hide JsonLexer.ReadToken, SkipComments, Recover, ParseMember;
      SetCurrent(Node(ObjectValue(Nil), tokenStart.start, CurrentValue().limit));
      var name := "";
      ghost var first := CurrentValue();
      var tokenName: Token;
      while true
        invariant Valid() && old(current_) <= current_ && document_ == old(document_) && nodes_ != []
        invariant |nodes_| == |old(nodes_)| && nodes_[..|nodes_| - 1] == old(nodes_)[..|nodes_| - 1]
        invariant errors_ == old(errors_) && stackDepth_g == old(stackDepth_g)
        invariant CurrentValue().payload.ObjectValue?
        invariant ParseMembers(toDouble, document_, current_, stackDepth_g, CurrentValue(), name)
               == ParseMembers(toDouble, document_, old(current_), stackDepth_g, first, "")
        decreases |document_| - current_
      {
        StringTokenLengthAfterComments(document_, current_);
        tokenName := ReadToken();
        tokenName := ReadTokenAfterComments(tokenName);
        if tokenName.kind == ObjectEnd && name == "" { return false, true; }
        if tokenName.kind != String { break; }
        var stop;
        thrown, stop, ok, name := ReadMember(tokenName);
        if stop { return; }
      }
      ok := AddErrorAndRecover(MissingName, tokenName, ObjectEnd);
      thrown := false;
    }

    /** The body of readObject's loop, past the name token. */
    method ReadMember(tokenName: Token) returns (thrown: bool, stop: bool, ok: bool, name: string)
      requires Valid() && nodes_ != [] && CurrentValue().payload.ObjectValue?
      requires tokenName.start + 2 <= tokenName.end == current_
      modifies this
      ensures Valid() && document_ == old(document_)
      ensures match ParseMember(toDouble, document_, tokenName, old(stackDepth_g), old(CurrentValue()))
              case Stop(r) =>
                && stop && Yields(r, thrown, ok, old(nodes_), old(errors_))
                && (r.Ret? ==> stackDepth_g == old(stackDepth_g) + Leak(r))
              case More(next, grown, last) =>
                && !stop && current_ == next && name == last && errors_ == old(errors_)
                && nodes_ == old(nodes_)[..|old(nodes_)| - 1] + [grown] && stackDepth_g == old(stackDepth_g)
      decreases |document_| - current_, 2
    {
      hide JsonLexer.ReadToken, SkipComments, Recover, Text, JsonText.DecodeString, ParseValue, Child, Put;
      thrown, stop, name := false, true, "";
      var decoded := DecodeString(tokenName);
      if decoded.Failed? {
        ok := RecoverFromError(ObjectEnd);
        return;
      }
      name := decoded.value;
      var colon := ReadToken();
      if colon.kind != MemberSeparator {
        ok := AddErrorAndRecover(MissingColon, colon, ObjectEnd);
        return;
      }
      thrown, ok := ReadChild(Name(name));
      if thrown { return; }
      if !ok {
        ok := RecoverFromError(ObjectEnd);
        return;
      }
      var comma := ReadToken();
      if comma.kind != ObjectEnd && comma.kind != ArraySeparator && comma.kind != Comment {
        ok := AddErrorAndRecover(MissingObjectSeparator, comma, ObjectEnd);
        return;
      }
      comma := ReadTokenAfterComments(comma);
      stop := comma.kind == ObjectEnd;
    }

    /** Push the member or element under `key`, read its value, pop it back into its parent. */
    method ReadChild(key: CZString) returns (thrown: bool, ok: bool)
      requires Valid() && nodes_ != []
      requires CurrentValue().payload.ObjectValue? || CurrentValue().payload.ArrayValue?
      modifies this
      ensures Valid() && document_ == old(document_)
      ensures var parent := old(CurrentValue());
              var r := ParseValue(toDouble, document_, old(current_), old(stackDepth_g), Child(EntriesOf(parent.payload), key));
              if r.Thrown? then thrown
              else
                && !thrown && ok == r.ok && current_ == r.pos && errors_ == old(errors_) + r.errors
                && nodes_ == old(nodes_)[..|old(nodes_)| - 1] + [parent.(payload := WithEntry(parent.payload, key, r.node))]
                && stackDepth_g == old(stackDepth_g) + Leak(r)
      decreases |document_| - current_, 1
    {
      var parent := CurrentValue();
      ghost var below := nodes_[..|nodes_| - 1];
      nodes_ := nodes_ + [Child(EntriesOf(parent.payload), key)];
      assert nodes_[..|nodes_| - 1] == below + [parent];
      thrown, ok := ReadValue();
      if thrown { return; }
      var node := CurrentValue();
      nodes_ := nodes_[..|nodes_| - 1];
      SetCurrent(parent.(payload := WithEntry(parent.payload, key, node)));
      assert (below + [parent])[..|below|] == below;
    }

    method ReadArray(tokenStart: Token) returns (thrown: bool, ok: bool)
      requires Valid() && nodes_ != []
      modifies this
      ensures Valid() && document_ == old(document_)
      ensures var r := ParseArray(toDouble, document_, old(current_), old(stackDepth_g),
                                  Node(ArrayValue(Nil), tokenStart.start, old(CurrentValue()).limit));
              && Yields(r, thrown, ok, old(nodes_), old(errors_))
              && (r.Ret? ==> stackDepth_g == old(stackDepth_g) + Leak(r))
      decreases |document_| - current_, 3
    {
      hide JsonLexer.ReadToken, ParseElements;
      SetCurrent(Node(ArrayValue(Nil), tokenStart.start, CurrentValue().limit));
      SkipSpaces();
      if Peek(document_, current_) == ']' {
        var endArray := ReadToken();
        return false, true;
      }
      thrown, ok := ReadElements();
    }

    /** The loop of readArray. */
    method ReadElements() returns (thrown: bool, ok: bool)
      requires Valid() && nodes_ != [] && CurrentValue().payload.ArrayValue?
      modifies this
      ensures Valid() && document_ == old(document_)
      ensures var r := ParseElements(toDouble, document_, old(current_), old(stackDepth_g), old(CurrentValue()), 0);
              && Yields(r, thrown, ok, old(nodes_), old(errors_))
              && (r.Ret? ==> stackDepth_g == old(stackDepth_g) + Leak(r))
      decreases |document_| - current_, 2
    {
      hide JsonLexer.ReadToken, SkipComments, Recover, ParseValue, Child, Put;
      var index := 0;
      ghost var start, first := current_, CurrentValue();
      while true
        invariant Valid() && old(current_) <= current_ && document_ == old(document_) && nodes_ != []
        invariant |nodes_| == |old(nodes_)| && nodes_[..|nodes_| - 1] == old(nodes_)[..|nodes_| - 1]
        invariant errors_ == old(errors_) && stackDepth_g == old(stackDepth_g) && index >= 0
        invariant CurrentValue().payload.ArrayValue?
        invariant ParseElements(toDouble, document_, current_, stackDepth_g, CurrentValue(), index)
               == ParseElements(toDouble, document_, start, stackDepth_g, first, 0)
        decreases |document_| - current_
      {
        thrown, ok := ReadChild(Index(index));
        index := index + 1;
        if thrown { return; }
        if !ok {
          ok := RecoverFromError(ArrayEnd);
          return;
        }
        var t := ReadToken();
        t := ReadTokenAfterComments(t);
        if t.kind != ArraySeparator && t.kind != ArrayEnd {
          ok := AddErrorAndRecover(MissingArraySeparator, t, ArrayEnd);
          return;
        }
        if t.kind == ArrayEnd { break; }
      }
      return false, true;
    }

    /** Reader::parse under strict features; `root` is what the caller's value holds before and after. */
    method ParseDocument(document: string, root: Node) returns (thrown: bool, ok: bool, parsed: Node)
      modifies this
      ensures document_ == document
      ensures match Parse(toDouble, document, root)
              case ParseThrown => thrown
              case Parsed(success, node, errors) => !thrown && ok == success && parsed == node && errors_ == errors
      ensures !thrown ==> (ok <==> errors_ == []) && nodes_ == [parsed]
    {
      document_ := document;
      current_ := 0;
      errors_ := [];
      nodes_ := [root];
      stackDepth_g := 0;
      thrown, ok := ReadValue();
      parsed := CurrentValueOr(root);
      if thrown { return; }
      var t := ReadToken();
      if !parsed.payload.ArrayValue? && !parsed.payload.ObjectValue? {
        t := Token(Error, 0, |document_|);
        ok := AddError(BadRoot, t, None);
      }
    }

    function CurrentValueOr(default: Node): Node
      reads this
    {
      if nodes_ == [] then default else CurrentValue()
    }
  }

  /** Only a token that starts no value leaks. */
  lemma ScalarLeak(toDouble: ToDouble, doc: string, t: Token, init: Node)
    requires t.start <= t.end <= |doc| && (t.kind == String ==> t.end - t.start >= 2)
    ensures Leak(ReadScalar(toDouble, doc, t, init)) ==
            if t.kind in {Number, String, True, False, Null} then 0 else 1
  {
  }

  lemma HexStep(text: string, pos: nat, left: nat, code: nat)
    requires pos + left <= |text| && left > 0
    ensures var d := HexValue(text[pos]);
            HexDigits(text, pos, left, code) ==
            if d.None? then BadUnicode(HexDigitExpected, pos + 1) else HexDigits(text, pos + 1, left - 1, code * 16 + d.value)
  {
  }

  lemma HexStop(text: string, pos: nat, code: nat)
    requires pos <= |text|
    ensures HexDigits(text, pos, 0, code) == Unicode(code, pos)
  {
  }

  lemma PrependNothing(d: Decoded)
    ensures Prepend("", d) == d
  {
  }

  /** One turn of decodeString's loop: which text it adds to `done` and where it goes on, or how it fails. */
  lemma DecodeCharsStep(text: string, pos: nat, end: nat, done: string)
    requires pos < end <= |text|
    ensures var all := Prepend(done, DecodeChars(text, pos, end));
            if text[pos] == '"' then true
            else if text[pos] != '\\' then all == Prepend(done + [text[pos]], DecodeChars(text, pos + 1, end))
            else
              var u := Unescape(text, pos + 1, end);
              if u.BadEscaped? then all == Failed(u.message, u.at)
              else all == Prepend(done + u.text, DecodeChars(text, u.next, end))
  {
    hide Unescape;
  }

  lemma DecodeCharsStop(text: string, pos: nat, end: nat, done: string)
    requires pos <= end <= |text| && (pos == end || (pos > 0 && text[pos - 1] == '"'))
    ensures pos == end ==> Prepend(done, DecodeChars(text, pos, end)) == Decoded(done)
    ensures pos > 0 && text[pos - 1] == '"' ==> Prepend(done, DecodeChars(text, pos - 1, end)) == Decoded(done)
  {
  }

  lemma DigitsValueEmpty()
    ensures DigitsValue([]) == 0
  {
  }

  /** The two paths of decodeNumber. */
  lemma DecodedBy(toDouble: ToDouble, text: string)
    requires text != []
    ensures var digits := Magnitude(text); var negative := text[0] == '-';
            && (AllDigits(digits) && DigitsValue(digits) <= MaxMagnitude(negative) ==>
                JsonText.DecodeNumber(toDouble, text) == Some(Tagged(negative, DigitsValue(digits))))
            && (!(AllDigits(digits) && DigitsValue(digits) <= MaxMagnitude(negative)) ==>
                var r := toDouble(text);
                JsonText.DecodeNumber(toDouble, text) == if r.Some? then Some(RealValue(r.value)) else None)
  {
  }

  /**
   The overflow test of decodeNumber, after `n` digits that fit: when it fires, the whole run of
   digits is too large (or not a run of digits); otherwise one more digit still fits.
   */
  lemma DigitStep(digits: string, n: nat, max: nat)
    requires n < |digits| && AllDigits(digits[..n]) && DigitsValue(digits[..n]) <= max && max >= 100
    requires IsDigit(digits[n])
    ensures AllDigits(digits[..n + 1])
    ensures DigitsValue(digits[..n + 1]) == DigitsValue(digits[..n]) * 10 + DigitValue(digits[n])
    ensures var value := DigitsValue(digits[..n]);
            var fires := value >= max / 10 && (value > max / 10 || n + 1 != |digits| || DigitValue(digits[n]) > max % 10);
            if fires then !(AllDigits(digits) && DigitsValue(digits) <= max)
            else DigitsValue(digits[..n + 1]) <= max
  {
    PrefixGrows(digits, n);
    if AllDigits(digits) {
      PrefixMonotone(digits, n + 1);
      if n + 1 < |digits| {
        PrefixGrows(digits, n + 1);
        PrefixMonotone(digits, n + 2);
      }
    }
    assert digits[..|digits|] == digits;
    hide DigitsValue, AllDigits;
  }

  lemma PrefixGrows(digits: string, n: nat)
    requires n < |digits| && AllDigits(digits[..n]) && IsDigit(digits[n])
    ensures AllDigits(digits[..n + 1])
    ensures DigitsValue(digits[..n + 1]) == DigitsValue(digits[..n]) * 10 + DigitValue(digits[n])
  {
    assert digits[..n + 1][..n] == digits[..n];
  }

  /** A longer run of digits is worth at least as much. */
  lemma {:induction false} PrefixMonotone(digits: string, n: nat)
    requires n <= |digits| && AllDigits(digits)
    ensures DigitsValue(digits[..n]) <= DigitsValue(digits)
    decreases |digits|
  {
    if n < |digits| {
      var shorter := digits[..|digits| - 1];
      assert shorter[..n] == digits[..n];
      PrefixMonotone(shorter, n);
    } else {
      assert digits[..n] == digits;
    }
  }
}
