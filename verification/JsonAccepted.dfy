/**
 What the reader accepts: nothing but the texts of trees.  Every accepted document is taken apart again, token by token,
 so that the documents the reader accepts, and the values it makes of them, are known exactly.
 */
module JsonAccepted {
  import opened Basics
  import opened JsonValue
  import opened JsonLexer
  import opened JsonText
  import opened JsonGrammar
  import opened JsonDocuments
  import opened JsonRanges

  // ---------------------------------------------------------------- white space and comments

  /** Part of the document, as text that stands in it. */
  lemma Cut(doc: string, a: nat, b: nat)
    requires a <= b <= |doc|
    ensures Occurs(doc, a, doc[a..b]) && |doc[a..b]| == b - a
  {
  }

  lemma {:induction false} SpacesRun(doc: string, pos: nat)
    requires pos <= |doc|
    ensures var end := SkipSpaces(doc, pos); White(doc[pos..end]) && (end < |doc| ==> !IsWhite(doc[end]))
    decreases |doc| - pos
  {
    if pos < |doc| && IsSpace(doc[pos]) {
      SpacesRun(doc, pos + 1);
      var end := SkipSpaces(doc, pos);
      assert doc[pos..end] == [doc[pos]] + doc[pos + 1..end];
    }
  }

  /** A token's start, and the white space before it. */
  lemma TokenRun(doc: string, pos: nat)
    requires pos <= |doc|
    ensures var t := ReadToken(doc, pos);
            && White(doc[pos..t.start]) && t == TokenAt(doc, t.start) && Occurs(doc, pos, doc[pos..t.start])
            && (t.start < |doc| ==> !IsWhite(doc[t.start]))
  {
    hide TokenAt;
    SpacesRun(doc, pos);
    Cut(doc, pos, SkipSpaces(doc, pos));
  }

  lemma {:induction false} BlockRun(doc: string, pos: nat)
    requires pos <= |doc| && CStyleStop(doc, pos) < |doc|
    ensures var stop := CStyleStop(doc, pos);
            && pos < stop && doc[stop - 1] == '*' && doc[stop] == '/'
            && forall i :: pos <= i < stop - 1 ==> !(doc[i] == '*' && doc[i + 1] == '/')
    decreases |doc| - pos
  {
    if pos < |doc| && !(doc[pos] == '*' && Peek(doc, pos + 1) == '/') { BlockRun(doc, pos + 1); }
  }

  /** Where the text of a comment to the end of the line stops and its ending begins. */
  lemma {:induction false} LineRun(doc: string, pos: nat) returns (stop: nat)
    requires pos <= |doc| && CppStyleEnd(doc, pos) < |doc|
    ensures var end := CppStyleEnd(doc, pos);
            && pos <= stop < end && (forall i :: pos <= i < stop ==> doc[i] != '\n' && doc[i] != '\r')
            && (doc[stop..end] == "\n" || doc[stop..end] == "\r\n" || (doc[stop..end] == "\r" && doc[end] != '\n'))
    decreases |doc| - pos
  {
    if doc[pos] == '\n' || doc[pos] == '\r' { stop := pos; } else { stop := LineRun(doc, pos + 1); }
  }

  /** A comment, with the white space behind it. */
  lemma RecoverRemark(doc: string, t: Token, next: nat) returns (r: Remark)
    requires t.start <= t.end <= next < |doc| && t == TokenAt(doc, t.start) && t.kind == Comment && White(doc[t.end..next])
    ensures LegalRemark(r) && Occurs(doc, t.start, RemarkText(r)) && t.start + |RemarkText(r)| == next
  {
    hide White, CStyleStop, CppStyleEnd, Occurs, TokenAt;
    CommentAt(doc, t.start);
    Cut(doc, t.end, next);
    if doc[t.start + 1] == '*' { r := RecoverBlock(doc, t, next); } else { r := RecoverLine(doc, t, next); }
  }

  lemma RecoverBlock(doc: string, t: Token, next: nat) returns (r: Remark)
    requires t.start + 2 <= t.end <= next < |doc| && White(doc[t.end..next])
    requires doc[t.start] == '/' && doc[t.start + 1] == '*' && CStyleStop(doc, t.start + 2) + 1 == t.end
    ensures LegalRemark(r) && Occurs(doc, t.start, RemarkText(r)) && t.start + |RemarkText(r)| == next
  {
    hide White, CStyleStop, Occurs;
    var pos, stop := t.start + 2, t.end - 1;
    BlockRun(doc, pos);
    Cut(doc, pos, stop - 1);
    Cut(doc, t.end, next);
    PairOccurs(doc, t.start, "/*");
    PairOccurs(doc, stop - 1, "*/");
    r := Block(doc[pos..stop - 1], doc[t.end..next]);
    RemarkJoins(doc, t.start, "/*", r.body, "*/", r.ws);
  }

  lemma RecoverLine(doc: string, t: Token, next: nat) returns (r: Remark)
    requires t.start + 2 <= t.end <= next < |doc| && White(doc[t.end..next])
    requires doc[t.start] == '/' && doc[t.start + 1] == '/' && CppStyleEnd(doc, t.start + 2) == t.end
    ensures LegalRemark(r) && Occurs(doc, t.start, RemarkText(r)) && t.start + |RemarkText(r)| == next
  {
    hide White, CppStyleEnd, Occurs;
    var pos := t.start + 2;
    var stop := LineRun(doc, pos);
    Cut(doc, pos, stop);
    Cut(doc, stop, t.end);
    Cut(doc, t.end, next);
    PairOccurs(doc, t.start, "//");
    r := Line(doc[pos..stop], doc[stop..t.end], doc[t.end..next]);
    RemarkJoins(doc, t.start, "//", r.body, r.ending, r.ws);
  }

  lemma PairOccurs(doc: string, pos: nat, pair: string)
    requires pos + 2 <= |doc| && |pair| == 2 && doc[pos] == pair[0] && doc[pos + 1] == pair[1]
    ensures Occurs(doc, pos, pair)
  {
  }

  lemma RemarkJoins(doc: string, pos: nat, open: string, body: string, ending: string, ws: string)
    requires Occurs(doc, pos, open) && Occurs(doc, pos + |open|, body) && Occurs(doc, pos + |open| + |body|, ending)
    requires Occurs(doc, pos + |open| + |body| + |ending|, ws)
    ensures Occurs(doc, pos, open + (body + (ending + ws)))
  {
    hide Occurs;
    OccursParts(doc, pos + |open| + |body|, ending, ws);
    OccursParts(doc, pos + |open|, body, ending + ws);
    OccursParts(doc, pos, open, body + (ending + ws));
  }

  lemma CommentAt(doc: string, start: nat)
    requires start <= |doc|
    ensures var t := TokenAt(doc, start);
            t.kind == Comment && t.end < |doc| ==>
              && start + 1 < |doc| && doc[start] == '/' && (doc[start + 1] == '*' || doc[start + 1] == '/')
              && (doc[start + 1] == '*' ==> CStyleStop(doc, start + 2) + 1 == t.end)
              && (doc[start + 1] == '/' ==> CppStyleEnd(doc, start + 2) == t.end)
  {
    hide CStyleStop, CppStyleEnd, StringEnd, NumberEnd, LiteralEnd;
  }

  lemma {:induction false} RecoverRemarks(doc: string, t: Token) returns (rs: seq<Remark>)
    requires t.start < t.end <= |doc| && t == TokenAt(doc, t.start) && t.kind == Comment && SkipComments(doc, t).start < |doc|
    ensures rs != [] && (forall i :: 0 <= i < |rs| ==> LegalRemark(rs[i]))
    ensures Occurs(doc, t.start, RemarksText(rs)) && t.start + |RemarksText(rs)| == SkipComments(doc, t).start
    decreases |doc| - t.start
  {
    hide TokenAt, ReadToken, White, RemarkText, LegalRemark, Occurs;
    var next := ReadToken(doc, t.end);
    TokenRun(doc, t.end);
    var r := RecoverRemark(doc, t, next.start);
    if next.kind == Comment {
      var rest := RecoverRemarks(doc, next);
      rs := [r] + rest;
      assert rs[1..] == rest;
      OccursParts(doc, t.start, RemarkText(r), RemarksText(rest));
    } else {
      rs := [r];
      assert RemarksText(rs) == RemarkText(r) + "" == RemarkText(r);
    }
  }

  lemma {:induction false} SkippedAt(doc: string, t: Token)
    requires t.start <= t.end <= |doc| && t == TokenAt(doc, t.start) && (t.start < |doc| ==> !IsWhite(doc[t.start]))
    ensures var s := SkipComments(doc, t); s == TokenAt(doc, s.start) && (s.start < |doc| ==> !IsWhite(doc[s.start]))
    decreases |doc| - t.end, t.kind == Comment
  {
    hide TokenAt, ReadToken, IsWhite;
    if t.kind == Comment {
      TokenRun(doc, t.end);
      SkippedAt(doc, ReadToken(doc, t.end));
    }
  }

  /** What stands before the next token that is no comment. */
  lemma RecoverGap(doc: string, pos: nat) returns (g: Gap)
    requires pos <= |doc| && SkipComments(doc, ReadToken(doc, pos)).start < |doc|
    ensures var t := SkipComments(doc, ReadToken(doc, pos));
            && LegalGap(g) && Occurs(doc, pos, GapText(g)) && pos + |GapText(g)| == t.start
            && (g.remarks != [] <==> ReadToken(doc, pos).kind == Comment)
            && t == TokenAt(doc, t.start) && !IsWhite(doc[t.start])
  {
    hide TokenAt, ReadToken, White, LegalRemark, Occurs, RemarksText, IsWhite, SkipComments;
    var first := ReadToken(doc, pos);
    TokenRun(doc, pos);
    SkippedAt(doc, first);
    var rs := [];
    if first.kind == Comment { rs := RecoverRemarks(doc, first); } else { NoRemarks(doc, pos); }
    g := Gap(doc[pos..first.start], rs);
    OccursParts(doc, pos, g.ws, RemarksText(rs));
    NothingOccurs(doc, first.start);
  }

  lemma NothingOccurs(doc: string, pos: nat)
    requires pos <= |doc|
    ensures Occurs(doc, pos, "")
  {
  }

  // ---------------------------------------------------------------- numbers and strings

  lemma {:induction false} DigitsRun(doc: string, pos: nat)
    requires pos <= |doc|
    ensures AllDigits(doc[pos..SkipDigits(doc, pos)])
    decreases |doc| - pos
  {
    if pos < |doc| && IsDigit(doc[pos]) {
      DigitsRun(doc, pos + 1);
      var end := SkipDigits(doc, pos);
      assert doc[pos..end] == [doc[pos]] + doc[pos + 1..end];
    }
  }

  lemma FractionRun(doc: string, pos: nat)
    requires pos <= |doc|
    ensures IsFraction(doc[pos..FractionEnd(doc, pos)])
  {
    if pos < |doc| && doc[pos] == '.' {
      DigitsRun(doc, pos + 1);
      hide SkipDigits;
      var s := doc[pos..FractionEnd(doc, pos)];
      assert s[1..] == doc[pos + 1..FractionEnd(doc, pos)];
    }
  }

  lemma ExponentRun(doc: string, pos: nat)
    requires pos <= |doc|
    ensures IsExponent(doc[pos..ExponentEnd(doc, pos)])
  {
    if pos < |doc| && (doc[pos] == 'e' || doc[pos] == 'E') {
      var k := SignEnd(doc, pos + 1);
      DigitsRun(doc, k);
      hide SkipDigits;
      var s := doc[pos..ExponentEnd(doc, pos)];
      assert s[k - pos..] == doc[k..ExponentEnd(doc, pos)];
      if k == pos + 1 && |s| >= 2 { assert IsDigit(s[1..][0]); }
    }
  }

  lemma RecoverNumeral(doc: string, start: nat) returns (n: Numeral)
    requires start < |doc| && (doc[start] == '-' || IsDigit(doc[start]))
    ensures LegalNumeral(n) && Occurs(doc, start, NumeralText(n)) && start + |NumeralText(n)| == NumberEnd(doc, start + 1)
  {
    hide IsFraction, IsExponent, SkipDigits, FractionEnd, ExponentEnd, AllDigits, Occurs;
    var a := SkipDigits(doc, start + 1);
    var b := FractionEnd(doc, a);
    var c := ExponentEnd(doc, b);
    var minus := doc[start] == '-';
    var whole := if minus then start + 1 else start;
    WholeRun(doc, start);
    FractionRun(doc, a);
    ExponentRun(doc, b);
    Cut(doc, start, whole);
    Cut(doc, whole, a);
    Cut(doc, a, b);
    Cut(doc, b, c);
    n := Numeral(minus, doc[whole..a], doc[a..b], doc[b..c]);
    SignText(doc, start);
    RemarkJoins(doc, start, if minus then "-" else "", n.whole, n.fraction, n.exponent);
  }

  lemma WholeRun(doc: string, start: nat)
    requires start < |doc| && (doc[start] == '-' || IsDigit(doc[start]))
    ensures AllDigits(doc[if doc[start] == '-' then start + 1 else start..SkipDigits(doc, start + 1)])
  {
    DigitsRun(doc, if doc[start] == '-' then start + 1 else start);
  }

  lemma SignText(doc: string, start: nat)
    requires start < |doc|
    ensures doc[start] == '-' ==> Occurs(doc, start, "-")
    ensures Occurs(doc, start, "")
  {
  }

  lemma {:induction false} UnendedRun(doc: string, pos: nat)
    requires pos <= |doc|
    ensures var s := StringEnd(doc, pos);
            if s.ok then pos < s.end && doc[s.end - 1] == '"' && Unended(doc[pos..s.end - 1]) else s.end == |doc|
    decreases |doc| - pos
  {
    if pos < |doc| && doc[pos] != '"' {
      var k := if doc[pos] == '\\' then Advance(doc, pos + 1) else pos + 1;
      UnendedRun(doc, k);
      var s := StringEnd(doc, k);
      if s.ok {
        var text := doc[pos..s.end - 1];
        assert text[k - pos..] == doc[k..s.end - 1];
      }
    }
  }

  /** The first unit of a string that decodes, or the two units of a surrogate pair. */
  lemma RecoverUnit(text: string, pos: nat, end: nat) returns (units: seq<Unit>)
    requires pos < end <= |text| && text[pos] != '"' && DecodeChars(text, pos, end).Decoded?
    ensures var next := pos + |UnitsText(units)|;
            && 1 <= |units| <= 2 && LegalUnits(units) && Occurs(text, pos, UnitsText(units)) && pos < next <= end
            && DecodeChars(text, next, end).Decoded?
  {
    hide DecodeChars, Unescape, LegalUnit, Occurs;
    DecodedStep(text, pos, end);
    if text[pos] != '\\' {
      units := [Raw(text[pos])];
      OneUnit(units[0]);
      PlainHere(text, pos);
    } else {
      units := RecoverEscape(text, pos, end);
    }
  }

  lemma DecodedStep(text: string, pos: nat, end: nat)
    requires pos < end <= |text| && text[pos] != '"' && DecodeChars(text, pos, end).Decoded?
    ensures if text[pos] != '\\' then DecodeChars(text, pos + 1, end).Decoded?
            else
              var u := Unescape(text, pos + 1, end);
              u.Unescaped? && DecodeChars(text, u.next, end).Decoded?
  {
    hide Unescape;
  }

  lemma OneUnit(u: Unit)
    ensures UnitsText([u]) == UnitText(u)
  {
    assert [u][1..] == [];
    assert UnitText(u) + "" == UnitText(u);
  }

  lemma PlainHere(text: string, pos: nat)
    requires pos < |text| && text[pos] != '"' && text[pos] != '\\'
    ensures LegalUnit(Raw(text[pos])) && Occurs(text, pos, UnitText(Raw(text[pos])))
  {
  }

  lemma RecoverEscape(text: string, pos: nat, end: nat) returns (units: seq<Unit>)
    requires pos < end <= |text| && text[pos] == '\\' && Unescape(text, pos + 1, end).Unescaped?
    ensures 1 <= |units| <= 2 && LegalUnits(units) && Occurs(text, pos, UnitsText(units))
    ensures pos + |UnitsText(units)| == Unescape(text, pos + 1, end).next
  {
    hide HexDigits, Utf8, LegalUnit, Occurs, SimpleEscape;
    if text[pos + 1] == 'u' {
      var first := Hex(text[pos + 2..pos + 6]);
      HexHere(text, pos, end);
      OneUnit(first);
      var u := UnicodeEscape(text, pos + 2, end);
      if HighSurrogate(u.code) {
        HexHere(text, pos + 6, end);
        var second := Hex(text[pos + 8..pos + 12]);
        units := [first, second];
        TwoUnits(first, second);
        OccursParts(text, pos, UnitText(first), UnitText(second));
      } else {
        units := [first];
      }
    } else {
      ShortHere(text, pos);
      units := [Short(text[pos + 1])];
      OneUnit(units[0]);
    }
  }

  lemma TwoUnits(u: Unit, v: Unit)
    ensures UnitsText([u, v]) == UnitText(u) + UnitText(v)
  {
    assert [u, v][1..] == [v];
    OneUnit(v);
  }

  lemma ShortHere(text: string, pos: nat)
    requires pos + 1 < |text| && text[pos] == '\\' && SimpleEscape(text[pos + 1]).Some?
    ensures var u := Short(text[pos + 1]); LegalUnit(u) && Occurs(text, pos, UnitText(u)) && |UnitText(u)| == 2
  {
    hide SimpleEscape;
    ShortIsSimple(text[pos + 1]);
    assert text[pos..pos + 2] == ['\\', text[pos + 1]];
  }

  lemma HexHere(text: string, pos: nat, end: nat)
    requires pos + 2 <= end <= |text| && text[pos] == '\\' && text[pos + 1] == 'u' && UnicodeEscape(text, pos + 2, end).Unicode?
    ensures pos + 6 <= end
    ensures var u := Hex(text[pos + 2..pos + 6]); LegalUnit(u) && Occurs(text, pos, UnitText(u)) && |UnitText(u)| == 6
  {
    DigitsHere(text, pos + 2, 4, 0);
    assert text[pos..pos + 6] == "\\u" + text[pos + 2..pos + 6];
  }

  lemma {:induction false} DigitsHere(text: string, pos: nat, left: nat, code: nat)
    requires pos + left <= |text| && HexDigits(text, pos, left, code).Unicode?
    ensures forall i :: pos <= i < pos + left ==> IsHexDigit(text[i])
    decreases left
  {
    if left > 0 {
      NibbleIsHex(text[pos]);
      hide HexValue, IsHexDigit;
      DigitsHere(text, pos + 1, left - 1, code * 16 + HexValue(text[pos]).value);
    }
  }

  /** A string that decodes and ends where the token ends is one of legal units. */
  lemma {:induction false} RecoverUnits(text: string, pos: nat) returns (units: seq<Unit>)
    requires pos < |text| && StringEnd(text, pos) == Scan(true, |text|) && DecodeChars(text, pos, |text| - 1).Decoded?
    ensures LegalUnits(units) && Occurs(text, pos, UnitsText(units) + "\"") && pos + |UnitsText(units)| + 1 == |text|
    decreases |text| - pos
  {
    hide StringEnd, DecodeChars, Occurs, LegalUnit, UnitText;
    var end := |text| - 1;
    EndOfString(text, pos);
    if pos == end {
      units := [];
      LastQuote(text);
    } else {
      var head := RecoverUnit(text, pos, end);
      var next := pos + |UnitsText(head)|;
      ScanHead(text, pos, head);
      var rest := RecoverUnits(text, next);
      units := head + rest;
      UnitsJoin(head, rest);
      Assoc(UnitsText(head), UnitsText(rest), "\"");
      OccursParts(text, pos, UnitsText(head), UnitsText(rest) + "\"");
    }
  }

  lemma EndOfString(text: string, pos: nat)
    requires pos < |text| && StringEnd(text, pos) == Scan(true, |text|)
    ensures pos == |text| - 1 <==> text[pos] == '"'
  {
    if pos == |text| - 1 && text[pos] != '"' { assert !StringEnd(text, |text|).ok; }
  }

  lemma LastQuote(text: string)
    requires text != "" && text[|text| - 1] == '"'
    ensures Occurs(text, |text| - 1, UnitsText([]) + "\"")
  {
  }

  lemma ScanHead(text: string, pos: nat, head: seq<Unit>)
    requires 1 <= |head| <= 2 && LegalUnits(head) && Occurs(text, pos, UnitsText(head))
    ensures pos + |UnitsText(head)| <= |text| && StringEnd(text, pos) == StringEnd(text, pos + |UnitsText(head)|)
  {
    hide StringEnd, Occurs, LegalUnit, UnitText;
    if |head| == 1 {
      assert head == [head[0]];
      OneUnit(head[0]);
      ScanUnit(text, pos, head[0]);
    } else {
      assert head == [head[0], head[1]];
      TwoUnits(head[0], head[1]);
      OccursParts(text, pos, UnitText(head[0]), UnitText(head[1]));
      ScanUnit(text, pos, head[0]);
      ScanUnit(text, pos + |UnitText(head[0])|, head[1]);
    }
  }

  lemma {:induction false} UnitsJoin(head: seq<Unit>, rest: seq<Unit>)
    ensures UnitsText(head + rest) == UnitsText(head) + UnitsText(rest)
    ensures LegalUnits(head) && LegalUnits(rest) ==> LegalUnits(head + rest)
    decreases |head|
  {
    hide UnitText, LegalUnit;
    if head == [] {
      assert head + rest == rest;
    } else {
      assert (head + rest)[1..] == head[1..] + rest;
      UnitsJoin(head[1..], rest);
    }
  }

  /** A string token that decodes. */
  lemma RecoverString(doc: string, start: nat) returns (units: seq<Unit>)
    requires start <= |doc|
    requires var t := TokenAt(doc, start); t.kind == String && t.end - t.start >= 2 && DecodeString(Text(doc, t)).Decoded?
    ensures LegalUnits(units) && Occurs(doc, start, StringText(units)) && start + |StringText(units)| == TokenAt(doc, start).end
  {
    hide TokenAt, StringEnd, DecodeChars, LegalUnits, UnitsText, Occurs;
    var t := TokenAt(doc, start);
    var text := Text(doc, t);
    QuotedToken(doc, start);
    StringLocal(doc, start, t.end, start + 1);
    units := RecoverUnits(text, 1);
    QuotedText(text, units);
    TextOccurs(doc, start, t.end);
  }

  lemma QuotedToken(doc: string, start: nat)
    requires start <= |doc| && TokenAt(doc, start).kind == String
    ensures start < |doc| && doc[start] == '"' && StringEnd(doc, start + 1) == Scan(true, TokenAt(doc, start).end)
  {
    hide StringEnd, NumberEnd, CommentEnd, LiteralEnd;
  }

  lemma QuotedText(text: string, units: seq<Unit>)
    requires text != "" && text[0] == '"' && Occurs(text, 1, UnitsText(units) + "\"") && |text| == |UnitsText(units)| + 2
    ensures text == StringText(units)
  {
    hide UnitsText;
    assert text == "\"" + text[1..];
  }

  lemma TextOccurs(doc: string, start: nat, end: nat)
    requires start <= end <= |doc|
    ensures Occurs(doc, start, doc[start..end])
  {
  }

  // ---------------------------------------------------------------- what stands for a comma

  lemma LiteralHere(doc: string, start: nat, pattern: string)
    requires start < |doc|
    ensures var s := LiteralEnd(doc, start + 1, pattern);
            if s.ok then Occurs(doc, start, [doc[start]] + pattern) && s.end == start + 1 + |pattern| else s.end == start + 1
  {
    if LiteralEnd(doc, start + 1, pattern).ok {
      assert doc[start..start + 1 + |pattern|] == [doc[start]] + doc[start + 1..start + 1 + |pattern|];
    }
  }

  /** The token that starts with a letter. */
  lemma WordAt(doc: string, start: nat)
    requires start < |doc| && (doc[start] == 't' || doc[start] == 'f' || doc[start] == 'n')
    ensures var t := TokenAt(doc, start);
            var word := if doc[start] == 't' then "true" else if doc[start] == 'f' then "false" else "null";
            || (t.kind == Error && t.end == start + 1)
            || (t.kind == (if doc[start] == 't' then True else if doc[start] == 'f' then False else Null)
                && Occurs(doc, start, word) && t.end == start + |word|)
  {
    hide StringEnd, NumberEnd, CommentEnd, Occurs, LiteralEnd;
    LiteralHere(doc, start, if doc[start] == 't' then "rue" else if doc[start] == 'f' then "alse" else "ull");
    assert ['t'] + "rue" == "true" && ['f'] + "alse" == "false" && ['n'] + "ull" == "null";
  }

  lemma NumberAt(doc: string, start: nat)
    requires start < |doc| && (doc[start] == '-' || IsDigit(doc[start]))
    ensures TokenAt(doc, start) == Token(Number, start, NumberEnd(doc, start + 1))
  {
    hide NumberEnd;
  }

  lemma SlashAt(doc: string, start: nat)
    requires start < |doc| && doc[start] == '/' && TokenAt(doc, start).kind != Comment && TokenAt(doc, start).end < |doc|
    ensures start + 1 < |doc| && doc[start + 1] != '*' && doc[start + 1] != '/' && TokenAt(doc, start).end == start + 2
  {
    if start + 1 < |doc| && doc[start + 1] == '*' { StopsAtSlash(doc, start + 2); }
    hide CStyleStop, CppStyleEnd;
  }

  lemma {:induction false} StopsAtSlash(doc: string, pos: nat)
    requires pos <= |doc|
    ensures CStyleStop(doc, pos) == |doc| || Peek(doc, CStyleStop(doc, pos)) == '/'
    decreases |doc| - pos
  {
    if pos < |doc| && !(doc[pos] == '*' && Peek(doc, pos + 1) == '/') { StopsAtSlash(doc, pos + 1); }
  }

  lemma SignAt(doc: string, start: nat)
    requires start < |doc| && doc[start] != '"' && doc[start] != '/' && doc[start] != '-' && !IsDigit(doc[start])
    requires doc[start] != 't' && doc[start] != 'f' && doc[start] != 'n'
    ensures var t := TokenAt(doc, start);
            t.end == start + 1 && (t.kind == ObjectEnd <==> doc[start] == '}') && (t.kind == ArraySeparator <==> doc[start] == ',')
  {
    hide StringEnd, NumberEnd, CommentEnd, LiteralEnd;
  }

  lemma QuoteHere(doc: string, start: nat)
    requires start < |doc| && doc[start] == '"' && TokenAt(doc, start).end < |doc|
    ensures var t := TokenAt(doc, start);
            t.kind == String && start + 2 <= t.end && Unended(doc[start + 1..t.end - 1]) && doc[t.end - 1] == '"'
  {
    UnendedRun(doc, start + 1);
    hide StringEnd, Unended, NumberEnd, CommentEnd, LiteralEnd;
  }

  lemma QuoteMark(doc: string, start: nat)
    requires start < |doc| && doc[start] == '"' && TokenAt(doc, start).end < |doc|
    ensures var end := TokenAt(doc, start).end;
            start + 2 <= end && TokenAt(doc, start).kind == String
            && var m := Quote(doc[start + 1..end - 1]);
               LegalMark(m) && |MarkText(m)| == end - start && Occurs(doc, start, MarkText(m))
  {
    hide TokenAt, Unended, Occurs;
    QuoteHere(doc, start);
    BetweenQuotes(doc, start, TokenAt(doc, start).end);
  }

  lemma BetweenQuotes(doc: string, a: nat, b: nat)
    requires a + 2 <= b <= |doc| && doc[a] == '"' && doc[b - 1] == '"'
    ensures var s := "\"" + (doc[a + 1..b - 1] + "\""); |s| == b - a && Occurs(doc, a, s)
  {
    assert doc[a..b] == doc[a..a + 1] + (doc[a + 1..b - 1] + doc[b - 1..b]);
    assert doc[a..a + 1] == "\"" && doc[b - 1..b] == "\"";
  }

  lemma SlashMark(doc: string, start: nat)
    requires start < |doc| && doc[start] == '/' && TokenAt(doc, start).kind != Comment && TokenAt(doc, start).end < |doc|
    ensures start + 1 < |doc| && TokenAt(doc, start).end == start + 2 && TokenAt(doc, start).kind != ArraySeparator
    ensures var m := Slash(doc[start + 1]); LegalMark(m) && Occurs(doc, start, MarkText(m)) && |MarkText(m)| == 2
  {
    hide TokenAt;
    SlashAt(doc, start);
    assert doc[start..start + 2] == ['/', doc[start + 1]];
    SlashIsError(doc, start);
  }

  lemma SlashIsError(doc: string, start: nat)
    requires start < |doc| && doc[start] == '/'
    ensures TokenAt(doc, start).kind != ArraySeparator
  {
    hide CommentEnd;
  }

  lemma SignMark(doc: string, start: nat)
    requires start < |doc| && LegalMark(Sign(doc[start]))
    ensures Occurs(doc, start, MarkText(Sign(doc[start]))) && |MarkText(Sign(doc[start]))| == 1
  {
  }

  lemma WordMark(doc: string, start: nat) returns (m: Mark)
    requires start < |doc| && (doc[start] == 't' || doc[start] == 'f' || doc[start] == 'n')
    ensures LegalMark(m) && Occurs(doc, start, MarkText(m)) && start + |MarkText(m)| == TokenAt(doc, start).end
    ensures m != Comma && TokenAt(doc, start).kind != ArraySeparator
  {
    hide TokenAt, Occurs;
    WordAt(doc, start);
    var c := doc[start];
    if TokenAt(doc, start).end == start + 1 {
      m := Sign(c);
      SignMark(doc, start);
    } else {
      m := Word(if c == 't' then "true" else if c == 'f' then "false" else "null");
    }
  }

  lemma CommaMark(doc: string, start: nat)
    requires start < |doc| && doc[start] == ','
    ensures Occurs(doc, start, MarkText(Comma))
  {
  }

  /** The token that separates two members: a comma, or, if that is not what it is, some other token that is complete. */
  lemma RecoverMark(doc: string, start: nat) returns (m: Mark)
    requires start < |doc| && !IsWhite(doc[start])
    requires var t := TokenAt(doc, start); t.end < |doc| && t.kind != ObjectEnd && t.kind != Comment
    ensures LegalMark(m) && Occurs(doc, start, MarkText(m)) && start + |MarkText(m)| == TokenAt(doc, start).end
    ensures m == Comma <==> TokenAt(doc, start).kind == ArraySeparator
  {
    hide TokenAt, Unended, NumeralText, LegalNumeral, NumberEnd, Occurs;
    var c, end := doc[start], TokenAt(doc, start).end;
    if c == '"' {
      QuoteMark(doc, start);
      m := Quote(doc[start + 1..end - 1]);
    } else if c == '/' {
      SlashMark(doc, start);
      m := Slash(doc[start + 1]);
    } else if c == '-' || IsDigit(c) {
      NumberAt(doc, start);
      var n := RecoverNumeral(doc, start);
      m := Figure(n);
    } else if c == 't' || c == 'f' || c == 'n' {
      m := WordMark(doc, start);
    } else {
      SignAt(doc, start);
      if c == ',' {
        CommaMark(doc, start);
        m := Comma;
      } else {
        m := Sign(c);
        SignMark(doc, start);
      }
    }
  }

  // ---------------------------------------------------------------- trees

  /** A token of this kind is its character. */
  lemma PunctuationHere(doc: string, start: nat)
    requires start <= |doc|
    ensures var t := TokenAt(doc, start);
            && (t.kind == ObjectBegin ==> Occurs(doc, start, "{") && t.end == start + 1)
            && (t.kind == ObjectEnd ==> Occurs(doc, start, "}") && t.end == start + 1)
            && (t.kind == ArrayBegin ==> Occurs(doc, start, "[") && t.end == start + 1)
            && (t.kind == ArrayEnd ==> Occurs(doc, start, "]") && t.end == start + 1)
            && (t.kind == ArraySeparator ==> Occurs(doc, start, ",") && t.end == start + 1)
            && (t.kind == MemberSeparator ==> Occurs(doc, start, ":") && t.end == start + 1)
  {
    hide StringEnd, NumberEnd, CommentEnd, LiteralEnd;
  }

  /** A scalar that reads. */
  lemma RecoverScalar(toDouble: ToDouble, doc: string, pos: nat, init: Node) returns (t: Tree)
    requires pos <= |doc|
    requires var k := ReadToken(doc, pos);
             k.kind != ObjectBegin && k.kind != ArrayBegin && (k.kind == String ==> k.end - k.start >= 2) && ReadScalar(toDouble, doc, k, init).ok
    ensures Legal(t) && Occurs(doc, pos, TreeText(t)) && pos + |TreeText(t)| == ReadToken(doc, pos).end
  {
    hide TokenAt, ReadToken, Occurs, White, NumeralText, LegalNumeral, StringText, LegalUnits, DecodeNumber, DecodeString, NumberEnd, Text;
    var k := ReadToken(doc, pos);
    var ws := doc[pos..k.start];
    TokenRun(doc, pos);
    KindStarts(doc, k.start);
    match k.kind {
      case Number =>
        NumberAt(doc, k.start);
        var n := RecoverNumeral(doc, k.start);
        t := NumberTree(ws, n);
      case String =>
        var units := RecoverString(doc, k.start);
        t := StringTree(ws, units);
      case True =>
        WordAt(doc, k.start);
        t := BoolTree(ws, true);
      case False =>
        WordAt(doc, k.start);
        t := BoolTree(ws, false);
      case Null =>
        WordAt(doc, k.start);
        t := NullTree(ws);
      case _ => assert false;
    }
    OccursParts(doc, pos, ws, BodyText(t));
  }

  lemma KindStarts(doc: string, start: nat)
    requires start <= |doc|
    ensures var t := TokenAt(doc, start);
            && (t.kind == Number ==> start < |doc| && (doc[start] == '-' || IsDigit(doc[start])))
            && (t.kind == True ==> start < |doc| && doc[start] == 't')
            && (t.kind == False ==> start < |doc| && doc[start] == 'f')
            && (t.kind == Null ==> start < |doc| && doc[start] == 'n')
  {
    hide StringEnd, NumberEnd, CommentEnd, LiteralEnd;
  }

  ghost predicate Succeeds(r: Outcome) { r.Ret? && r.ok }

  /** Every value that reads is the text of a tree. */
  lemma {:induction false} RecoverTree(toDouble: ToDouble, doc: string, pos: nat, depth: nat, init: Node) returns (t: Tree)
    requires pos <= |doc| && Succeeds(ParseValue(toDouble, doc, pos, depth, init))
    ensures Legal(t) && Occurs(doc, pos, TreeText(t)) && pos + |TreeText(t)| == ParseValue(toDouble, doc, pos, depth, init).pos
    ensures ReadToken(doc, pos).kind == ObjectBegin ==> t.ObjectTree?
    ensures ReadToken(doc, pos).kind == ArrayBegin ==> t.ArrayTree?
    decreases |doc| - pos, 0
  {
    hide ReadToken, TokenAt, ReadScalar, ParseValue, ParseMembers, ParseArray, Occurs, White, LegalGap, ElementsText, MembersText,
         LegalElements, LegalMembers, TreeText, IsWhite;
    ParseValueCases(toDouble, doc, pos, depth, init);
    var k := ReadToken(doc, pos);
    TokenRun(doc, pos);
    PunctuationHere(doc, k.start);
    var ws := doc[pos..k.start];
    if k.kind == ObjectBegin {
      var ms, close := RecoverMembers(toDouble, doc, k.end, depth + 1, Node(ObjectValue(Nil), k.start, init.limit), "");
      t := ObjectTree(ws, ms, close);
      OccursParts(doc, k.start, "{", MembersText(ms, close));
      TreeJoins(doc, pos, t);
    } else if k.kind == ArrayBegin {
      var es, close := RecoverArray(toDouble, doc, k.end, depth + 1, Node(ArrayValue(Nil), k.start, init.limit));
      t := ArrayTree(ws, es, close);
      OccursParts(doc, k.start, "[", ElementsText(es, close));
      TreeJoins(doc, pos, t);
    } else {
      t := RecoverScalar(toDouble, doc, pos, init);
    }
  }

  lemma TreeJoins(doc: string, pos: nat, t: Tree)
    requires Occurs(doc, pos, t.ws) && Occurs(doc, pos + |t.ws|, BodyText(t))
    ensures Occurs(doc, pos, TreeText(t)) && |TreeText(t)| == |t.ws| + |BodyText(t)|
  {
    hide Occurs, BodyText;
    OccursParts(doc, pos, t.ws, BodyText(t));
  }

  lemma {:induction false} RecoverArray(toDouble: ToDouble, doc: string, pos: nat, depth: nat, node: Node)
    returns (es: Elements, close: Gap)
    requires pos <= |doc| && node.payload.ArrayValue? && Succeeds(ParseArray(toDouble, doc, pos, depth, node))
    ensures LegalElements(es) && LegalGap(close) && (es.NoElements? ==> close.remarks == [])
    ensures Occurs(doc, pos, ElementsText(es, close)) && pos + |ElementsText(es, close)| == ParseArray(toDouble, doc, pos, depth, node).pos
    decreases |doc| - pos, 2
  {
    hide ReadToken, TokenAt, SkipSpaces, ParseArray, ParseElements, Occurs, White, IsWhite, GapText;
    var start := SkipSpaces(doc, pos);
    ParseArrayIs(toDouble, doc, pos, depth, node);
    if Peek(doc, start) == ']' {
      EmptyArrayRun(doc, pos);
      es, close := NoElements, Gap(doc[pos..start], []);
      OccursParts(doc, pos, GapText(close), "]");
    } else {
      ElementsSkip(toDouble, doc, pos, depth, node, 0);
      es, close := RecoverElements(toDouble, doc, pos, depth, node, 0);
    }
  }

  lemma EmptyArrayRun(doc: string, pos: nat)
    requires pos <= |doc| && Peek(doc, SkipSpaces(doc, pos)) == ']'
    ensures var start := SkipSpaces(doc, pos); var close := Gap(doc[pos..start], []);
            && LegalGap(close) && |GapText(close)| == start - pos && Occurs(doc, pos, GapText(close)) && Occurs(doc, start, "]")
            && ReadToken(doc, start).end == start + 1
  {
    SpacesRun(doc, pos);
    hide SkipSpaces, White, TokenAt, ReadToken;
    var start := SkipSpaces(doc, pos);
    Cut(doc, pos, start);
    assert GapText(Gap(doc[pos..start], [])) == doc[pos..start];
    PunctuationAt(doc, start, ArrayEnd, ']');
  }

  /** If the loop succeeds, the element reads, and a comma or the bracket follows. */
  lemma ElementsSucceed(toDouble: ToDouble, doc: string, pos: nat, depth: nat, node: Node, i: nat)
    requires pos <= |doc| && node.payload.ArrayValue? && Succeeds(ParseElements(toDouble, doc, pos, depth, node, i))
    ensures var r := ParseValue(toDouble, doc, pos, depth, Child(node.payload.items, Index(i)));
            && Succeeds(r)
            && var t := SkipComments(doc, ReadToken(doc, r.pos));
               && t.start < |doc|
               && if t.kind == ArrayEnd then ParseElements(toDouble, doc, pos, depth, node, i).pos == t.end
                  else
                    && t.kind == ArraySeparator
                    && ParseElements(toDouble, doc, t.end, depth, node.(payload := ArrayValue(Put(node.payload.items, Index(i), r.node))), i + 1)
                       == ParseElements(toDouble, doc, pos, depth, node, i)
  {
    hide ReadToken, SkipComments, ParseValue, ParseElements, Child, Put;
    ParseElementsCases(toDouble, doc, pos, depth, node, i);
    NotAtEnd(doc, ParseValue(toDouble, doc, pos, depth, Child(node.payload.items, Index(i))).pos);
  }

  lemma {:induction false} RecoverElements(toDouble: ToDouble, doc: string, pos: nat, depth: nat, node: Node, i: nat)
    returns (es: Elements, close: Gap)
    requires pos <= |doc| && node.payload.ArrayValue? && Succeeds(ParseElements(toDouble, doc, pos, depth, node, i))
    ensures LegalElements(es) && LegalGap(close) && es.Element?
    ensures Occurs(doc, pos, ElementsText(es, close))
    ensures pos + |ElementsText(es, close)| == ParseElements(toDouble, doc, pos, depth, node, i).pos
    decreases |doc| - pos, 1
  {
    hide ReadToken, TokenAt, SkipComments, ParseValue, ParseElements, Occurs, LegalGap, Child, Put, GapText, Legal, LegalElements, TreeText,
         ElementsText, ElementsTail, IsWhite;
    var init := Child(node.payload.items, Index(i));
    ElementsSucceed(toDouble, doc, pos, depth, node, i);
    var value := RecoverTree(toDouble, doc, pos, depth, init);
    var r := ParseValue(toDouble, doc, pos, depth, init);
    var t := SkipComments(doc, ReadToken(doc, r.pos));
    var gap := RecoverGap(doc, r.pos);
    PunctuationHere(doc, t.start);
    if t.kind == ArrayEnd {
      es, close := Element(value, gap, NoElements), gap;
      NoneIsLegal();
    } else {
      var rest;
      rest, close := RecoverElements(toDouble, doc, t.end, depth, node.(payload := ArrayValue(Put(node.payload.items, Index(i), r.node))), i + 1);
      es := Element(value, gap, rest);
    }
    ElementsJoin(doc, pos, es, close);
  }

  lemma NoneIsLegal()
    ensures LegalElements(NoElements)
  {
  }

  /** The parts of an element, one behind the other. */
  lemma ElementsJoin(doc: string, pos: nat, es: Elements, close: Gap)
    requires es.Element? && Legal(es.value) && LegalGap(es.comma) && LegalElements(es.rest)
    requires Occurs(doc, pos, TreeText(es.value))
    requires var at := pos + |TreeText(es.value)|;
             if es.rest.NoElements? then es.comma == close && Occurs(doc, at, GapText(close)) && Occurs(doc, at + |GapText(close)|, "]")
             else
               var comma := at + |GapText(es.comma)|;
               Occurs(doc, at, GapText(es.comma)) && Occurs(doc, comma, ",") && Occurs(doc, comma + 1, ElementsText(es.rest, close))
    ensures LegalElements(es) && Occurs(doc, pos, ElementsText(es, close))
    ensures |ElementsText(es, close)| == |TreeText(es.value)| + |GapText(es.comma)| + 1 +
                                         if es.rest.NoElements? then 0 else |ElementsText(es.rest, close)|
  {
    hide Occurs, GapText, TreeText, LegalGap, Legal;
    var at := pos + |TreeText(es.value)|;
    if es.rest.NoElements? {
      OccursParts(doc, at, GapText(close), "]");
    } else {
      OccursParts(doc, at + |GapText(es.comma)|, ",", ElementsText(es.rest, close));
      OccursParts(doc, at, GapText(es.comma), "," + ElementsText(es.rest, close));
    }
    ElementsTextIs(es, close);
    OccursParts(doc, pos, TreeText(es.value), ElementsTail(es, close));
  }

  lemma ElementsTextIs(es: Elements, close: Gap)
    requires es.Element?
    ensures ElementsText(es, close) == TreeText(es.value) + ElementsTail(es, close)
  {
    hide TreeText, ElementsTail;
  }

  /** A token that is not the end of the document starts before it. */
  lemma NotAtEnd(doc: string, pos: nat)
    requires pos <= |doc|
    ensures var t := SkipComments(doc, ReadToken(doc, pos)); t.kind != EndOfStream ==> t.start < t.end <= |doc|
  {
    hide ReadToken;
  }

  lemma {:induction false} RecoverMembers(toDouble: ToDouble, doc: string, pos: nat, depth: nat, node: Node, name: string)
    returns (ms: Members, close: Gap)
    requires pos <= |doc| && node.payload.ObjectValue? && Succeeds(ParseMembers(toDouble, doc, pos, depth, node, name))
    ensures LegalMembers(ms) && LegalGap(close) && (ms.NoMembers? ==> name == "")
    ensures Occurs(doc, pos, MembersText(ms, close))
    ensures pos + |MembersText(ms, close)| == ParseMembers(toDouble, doc, pos, depth, node, name).pos
    decreases |doc| - pos, 2
  {
    hide ReadToken, TokenAt, SkipComments, ParseMember, ParseMembers, Occurs, LegalGap, GapText, IsWhite, LegalMembers, MembersText;
    ParseMembersCases(toDouble, doc, pos, depth, node, name);
    var t := SkipComments(doc, ReadToken(doc, pos));
    NotAtEnd(doc, pos);
    var gap := RecoverGap(doc, pos);
    if t.kind == ObjectEnd {
      PunctuationHere(doc, t.start);
      ms, close := NoMembers, gap;
      OccursParts(doc, pos, GapText(gap), "}");
      NoMembersText(close);
    } else {
      ms, close := RecoverMember(toDouble, doc, pos, depth, node, name, gap);
    }
  }

  lemma NoMembersText(close: Gap)
    ensures LegalMembers(NoMembers) && MembersText(NoMembers, close) == GapText(close) + "}"
  {
  }

  /** What a turn of the loop comes to in the end. */
  ghost function Finally(toDouble: ToDouble, doc: string, depth: nat, turn: Turn): Outcome
    requires turn.More? ==> turn.pos <= |doc| && turn.node.payload.ObjectValue?
  {
    match turn
    case Stop(r) => r
    case More(next, grown, last) => ParseMembers(toDouble, doc, next, depth, grown, last)
  }

  /** If the loop succeeds past a name, that name decodes, a colon follows, the value reads, and so does what comes behind it. */
  lemma MemberSucceeds(toDouble: ToDouble, doc: string, pos: nat, depth: nat, node: Node, name: string)
    requires pos <= |doc| && node.payload.ObjectValue? && Succeeds(ParseMembers(toDouble, doc, pos, depth, node, name))
    requires SkipComments(doc, ReadToken(doc, pos)).kind == String
    ensures var t := SkipComments(doc, ReadToken(doc, pos));
            && pos <= t.start && t.start + 2 <= t.end <= |doc| && DecodeString(Text(doc, t)).Decoded?
            && var colon := ReadToken(doc, t.end); var key := DecodeString(Text(doc, t)).value;
               && colon.kind == MemberSeparator
               && var r := ParseValue(toDouble, doc, colon.end, depth, Child(node.payload.members, Name(key)));
                  && Succeeds(r)
                  && var turn := AfterMember(doc, r.pos, node.(payload := ObjectValue(Put(node.payload.members, Name(key), r.node))), key);
                     && (turn.More? ==> turn.pos <= |doc| && turn.node.payload.ObjectValue?)
                     && Finally(toDouble, doc, depth, turn) == ParseMembers(toDouble, doc, pos, depth, node, name)
  {
    hide ReadToken, TokenAt, SkipComments, ParseValue, ParseMember, ParseMembers, AfterMember, DecodeString, Put, Child;
    ParseMembersCases(toDouble, doc, pos, depth, node, name);
    var t := SkipComments(doc, ReadToken(doc, pos));
    StartsAfter(doc, pos);
    SucceedingMember(toDouble, doc, t, depth, node);
    var key := DecodeString(Text(doc, t)).value;
    var r := ParseValue(toDouble, doc, ReadToken(doc, t.end).end, depth, Child(node.payload.members, Name(key)));
    AfterMemberFits(doc, r.pos, node.(payload := ObjectValue(Put(node.payload.members, Name(key), r.node))), key);
  }

  lemma StartsAfter(doc: string, pos: nat)
    requires pos <= |doc|
    ensures pos <= SkipComments(doc, ReadToken(doc, pos)).start
  {
    hide TokenAt;
  }

  lemma {:induction false} RecoverMember(toDouble: ToDouble, doc: string, pos: nat, depth: nat, node: Node, name: string, gap: Gap)
    returns (ms: Members, close: Gap)
    requires pos <= |doc| && node.payload.ObjectValue? && Succeeds(ParseMembers(toDouble, doc, pos, depth, node, name))
    requires var t := SkipComments(doc, ReadToken(doc, pos));
             && t.kind == String && t == TokenAt(doc, t.start) && LegalGap(gap) && Occurs(doc, pos, GapText(gap)) && pos + |GapText(gap)| == t.start
    ensures LegalMembers(ms) && LegalGap(close) && ms.Member?
    ensures Occurs(doc, pos, MembersText(ms, close))
    ensures pos + |MembersText(ms, close)| == ParseMembers(toDouble, doc, pos, depth, node, name).pos
    decreases |doc| - pos, 1
  {
    hide ReadToken, TokenAt, SkipComments, ParseValue, ParseMember, ParseMembers, AfterMember, Occurs, LegalGap, GapText, IsWhite, White, Finally,
         LegalMembers, LegalNext, LegalUnits, Legal, MembersText, NextText, TreeText, StringText, DecodeString, Bytes, Put, Child;
    MemberSucceeds(toDouble, doc, pos, depth, node, name);
    var t := SkipComments(doc, ReadToken(doc, pos));
    var units, colon := RecoverName(doc, t);
    var at := ReadToken(doc, t.end).end;
    var key := Name(DecodeString(Text(doc, t)).value);
    var init := Child(node.payload.members, key);
    var value := RecoverTree(toDouble, doc, at, depth, init);
    var r := ParseValue(toDouble, doc, at, depth, init);
    var grown := node.(payload := ObjectValue(Put(node.payload.members, key, r.node)));
    var next;
    next, close := RecoverNext(toDouble, doc, r.pos, depth, grown, key.str);
    ms := Member(gap, units, colon, value, next);
    MemberIsLegal(ms);
    MemberJoins(doc, pos, ms, close);
  }

  /** A name and the white space before the colon behind it. */
  lemma RecoverName(doc: string, t: Token) returns (units: seq<Unit>, colon: string)
    requires t.start + 2 <= t.end <= |doc| && t == TokenAt(doc, t.start) && t.kind == String && DecodeString(Text(doc, t)).Decoded?
    requires ReadToken(doc, t.end).kind == MemberSeparator
    ensures LegalUnits(units) && Bytes(units) == Some(DecodeString(Text(doc, t)).value) && White(colon)
    ensures Occurs(doc, t.start, StringText(units)) && t.start + |StringText(units)| == t.end
    ensures Occurs(doc, t.end, colon) && Occurs(doc, t.end + |colon|, ":") && ReadToken(doc, t.end).end == t.end + |colon| + 1
  {
    hide ReadToken, TokenAt, Occurs, White, LegalUnits, StringText, DecodeString, Bytes, IsWhite;
    units := RecoverString(doc, t.start);
    RecoveredName(doc, t, units);
    var k := ReadToken(doc, t.end);
    TokenRun(doc, t.end);
    PunctuationHere(doc, k.start);
    colon := doc[t.end..k.start];
  }

  lemma RecoveredName(doc: string, t: Token, units: seq<Unit>)
    requires t.start + 2 <= t.end <= |doc| && LegalUnits(units) && Occurs(doc, t.start, StringText(units)) && t.start + |StringText(units)| == t.end
    requires DecodeString(Text(doc, t)).Decoded?
    ensures Bytes(units) == Some(DecodeString(Text(doc, t)).value)
  {
    hide LegalUnits, StringText, DecodeString, Bytes;
    assert Text(doc, t) == StringText(units);
    StringDecodes(units);
  }

  lemma AfterMemberFits(doc: string, pos: nat, node: Node, name: string)
    requires pos <= |doc|
    ensures var turn := AfterMember(doc, pos, node, name); turn.More? ==> pos < turn.pos <= |doc| && turn.node == node && turn.name == name
  {
    hide ReadToken;
  }

  lemma MemberIsLegal(ms: Members)
    requires ms.Member? && LegalGap(ms.gap) && LegalUnits(ms.name) && White(ms.colon) && Legal(ms.value) && LegalNext(ms.next)
    requires ms.next.Another? && ms.next.rest.NoMembers? ==> Bytes(ms.name) == Some("")
    ensures LegalMembers(ms)
  {
    hide LegalGap, LegalUnits, White, Legal, Bytes;
  }

  /** The parts of a member, one behind the other. */
  lemma MemberJoins(doc: string, pos: nat, ms: Members, close: Gap)
    requires ms.Member? && LegalMembers(ms)
    requires var name := pos + |GapText(ms.gap)|; var named := name + |StringText(ms.name)|;
             var value := named + |ms.colon| + 1; var at := value + |TreeText(ms.value)|;
             && Occurs(doc, pos, GapText(ms.gap)) && Occurs(doc, name, StringText(ms.name)) && Occurs(doc, named, ms.colon)
             && Occurs(doc, value - 1, ":") && Occurs(doc, value, TreeText(ms.value)) && Occurs(doc, at, NextText(ms.next, close))
    ensures Occurs(doc, pos, MembersText(ms, close))
    ensures |MembersText(ms, close)| == |GapText(ms.gap)| + |StringText(ms.name)| + |ms.colon| + 1 + |TreeText(ms.value)| + |NextText(ms.next, close)|
  {
    hide *;
    MembersTextIs(ms, close);
    var name := pos + |GapText(ms.gap)|;
    var named := name + |StringText(ms.name)|;
    var tail := TreeText(ms.value) + NextText(ms.next, close);
    OccursParts(doc, named + |ms.colon| + 1, TreeText(ms.value), NextText(ms.next, close));
    OccursParts(doc, named + |ms.colon|, ":", tail);
    OccursParts(doc, named, ms.colon, ":" + tail);
    OccursParts(doc, name, StringText(ms.name), ms.colon + (":" + tail));
    OccursParts(doc, pos, GapText(ms.gap), StringText(ms.name) + (ms.colon + (":" + tail)));
  }

  lemma {:induction false} RecoverNext(toDouble: ToDouble, doc: string, pos: nat, depth: nat, node: Node, name: string)
    returns (next: Next, close: Gap)
    requires pos <= |doc| && node.payload.ObjectValue?
    requires var turn := AfterMember(doc, pos, node, name);
             (turn.More? ==> turn.pos <= |doc| && turn.node.payload.ObjectValue?) && Succeeds(Finally(toDouble, doc, depth, turn))
    ensures LegalNext(next) && LegalGap(close) && (next.Another? && next.rest.NoMembers? ==> name == "")
    ensures Occurs(doc, pos, NextText(next, close))
    ensures pos + |NextText(next, close)| == Finally(toDouble, doc, depth, AfterMember(doc, pos, node, name)).pos
    decreases |doc| - pos, 0
  {
    hide ReadToken, TokenAt, SkipComments, ParseMembers, AfterMember, Occurs, LegalGap, GapText, IsWhite, LegalMembers, LegalMark, MarkText,
         MembersText;
    AfterMemberIs(doc, pos, node, name);
    AfterMemberFits(doc, pos, node, name);
    var first := ReadToken(doc, pos);
    var comma := SkipComments(doc, first);
    if comma.kind == ObjectEnd {
      NotAtEnd(doc, pos);
      close := RecoverGap(doc, pos);
      PunctuationHere(doc, comma.start);
      next := NoNext;
      OccursParts(doc, pos, GapText(close), "}");
    } else {
      MembersGoOn(toDouble, doc, comma.end, depth, node, name);
      var gap := RecoverGap(doc, pos);
      var mark := RecoverMark(doc, comma.start);
      var rest;
      rest, close := RecoverMembers(toDouble, doc, comma.end, depth, node, name);
      next := Another(gap, mark, rest);
      OccursParts(doc, comma.start, MarkText(mark), MembersText(rest, close));
      OccursParts(doc, pos, GapText(gap), MarkText(mark) + MembersText(rest, close));
      NoCommentIsComma(doc, first);
    }
  }

  lemma NoCommentIsComma(doc: string, first: Token)
    requires first.start <= first.end <= |doc| && (first.start == first.end ==> first.kind == EndOfStream)
    ensures first.kind != Comment ==> SkipComments(doc, first) == first
  {
  }

  lemma MembersGoOn(toDouble: ToDouble, doc: string, pos: nat, depth: nat, node: Node, name: string)
    requires pos <= |doc| && node.payload.ObjectValue? && Succeeds(ParseMembers(toDouble, doc, pos, depth, node, name))
    ensures pos < |doc|
  {
    hide ParseMembers;
  }

  // ---------------------------------------------------------------- whole documents

  /** The document is a tree's text, perhaps with more behind it, and stands for this value. */
  ghost predicate StandsFor(toDouble: ToDouble, doc: string, p: Payload) {
    exists t: Tree ::
      && Legal(t) && (t.ArrayTree? || t.ObjectTree?) && Nesting(t) <= 1000 && Meaning(toDouble, t) == Some(p) && TreeText(t) <= doc
  }

  /** A document parses, and to this value, if and only if it is the text of a tree that stands for the value. */
  lemma AcceptsExactly(toDouble: ToDouble, doc: string, root: Node, p: Payload)
    ensures var result := Parse(toDouble, doc, root);
            result.Parsed? && result.ok && Strip(result.root.payload) == p <==> StandsFor(toDouble, doc, p)
  {
    hide ParseValue, TreeText, Legal, Meaning, Nesting;
    if StandsFor(toDouble, doc, p) {
      var t: Tree :| Legal(t) && (t.ArrayTree? || t.ObjectTree?) && Nesting(t) <= 1000 && Meaning(toDouble, t) == Some(p) && TreeText(t) <= doc;
      assert doc == TreeText(t) + doc[|TreeText(t)|..];
      ReadsDocument(toDouble, t, doc[|TreeText(t)|..], root);
    }
    var result := Parse(toDouble, doc, root);
    if result.Parsed? && result.ok && Strip(result.root.payload) == p {
      var t := RecoverTree(toDouble, doc, 0, 0, root);
      assert doc == TreeText(t) + doc[|TreeText(t)|..];
      ReadsDocument(toDouble, t, doc[|TreeText(t)|..], root);
    }
  }
}
