/**
 The layout of StyledWriter, put together from the layouts of the parts: an array goes on one line if that line has room,
 three columns an indentation.  And the layout of FastWriter, which is the tokens and nothing between them.
 */
module JsonLayout {
  import opened Basics
  import opened JsonValue
  import opened JsonText
  import opened JsonSpelling
  import opened JsonSizes
  import opened JsonFastText
  import opened JsonStyledText
  import opened JsonWriter
  import opened JsonStyledWriter
  import opened JsonTokens

  // ---------------------------------------------------------------- the layout

  function Join(texts: seq<string>, separator: string): string {
    if texts == [] then "" else texts[0] + if |texts| == 1 then "" else separator + Join(texts[1..], separator)
  }

  /** An array on one line. */
  function OneLine(show: ShowReal, es: Entries): string { "[ " + (Join(LeafTexts(show, es, 0), ", ") + " ]") }

  /** An element that is a container and not empty. */
  predicate Nested(es: Entries) {
    es.Cons? && ((es.node.payload.ArrayValue? && UIntSize(es.node.payload.items) > 0)
                 || (es.node.payload.ObjectValue? && es.node.payload.members.Cons?)
                 || Nested(es.rest))
  }

  /** The line has no room for the array: by its size, by what is in it, or by its text, all sums in 32 bits. */
  predicate Sprawls(show: ShowReal, es: Entries) {
    ToInt32(3 * ArraySize(es)) >= 74 || Nested(es) || ToInt32(|OneLine(show, es)|) >= 74
  }

  /** A value whose first line starts at column `ind`, or behind a name. */
  function Pretty(show: ShowReal, ind: string, p: Payload): string
    decreases p
  {
    match p
    case ArrayValue(es) =>
      if UIntSize(es) == 0 then "[]" else if Sprawls(show, es) then "[" + PrettyItems(show, ind, es, 0) else OneLine(show, es)
    case ObjectValue(es) => if es.Nil? then "{}" else "{" + PrettyMembers(show, ind, es)
    case _ => FastText(show, p)
  }

  function PrettyItems(show: ShowReal, ind: string, es: Entries, i: nat): string
    requires es.Cons?
    decreases es, if IsHole(es, i) then es.key.index - i else 0
  {
    var line := "\n" + (ind + "   ");
    if IsHole(es, i) then line + ("null" + ("," + PrettyItems(show, ind, es, i + 1)))
    else line + (Pretty(show, ind + "   ", es.node.payload) +
                 (if es.rest.Nil? then "\n" + (ind + "]") else "," + PrettyItems(show, ind, es.rest, i + 1)))
  }

  function PrettyMembers(show: ShowReal, ind: string, es: Entries): string
    requires es.Cons?
    decreases es
  {
    var line := "\n" + (ind + "   ");
    line + (Quoted(CString(KeyText(es.key))) + (" : " + (Pretty(show, ind + "   ", es.node.payload) +
            (if es.rest.Nil? then "\n" + (ind + "}") else "," + PrettyMembers(show, ind, es.rest)))))
  }

  // ---------------------------------------------------------------- when an array goes on one line

  /** The total length of some texts. */
  function Total(texts: seq<string>): nat { if texts == [] then 0 else |texts[0]| + Total(texts[1..]) }

  lemma {:induction false} JoinLength(texts: seq<string>, separator: string)
    requires texts != []
    ensures |Join(texts, separator)| == Total(texts) + (|texts| - 1) * |separator|
    decreases |texts|
  {
    if |texts| > 1 {
      JoinLength(texts[1..], separator);
    } else {
      assert texts[1..] == [];
    }
  }

  lemma {:induction false} TotalIsTextLength(show: ShowReal, es: Entries, i: nat)
    ensures Total(LeafTexts(show, es, i)) == TextLength(show, es, i)
    decreases es, if IsHole(es, i) then es.key.index - i else 0
  {
    hide FastText;
    if es.Cons? { TotalIsTextLength(show, NextItems(es, i), i + 1); }
  }

  lemma {:induction false} NestedIsNoLeaf(es: Entries)
    ensures Nested(es) <==> !AllLeaves(es)
    decreases es
  {
    if es.Cons? { NestedIsNoLeaf(es.rest); }
  }

  lemma WrapsAlike(n: int, k: int, t: int)
    ensures ToInt32(ToInt32(n % 0x1_0000_0000) * k + t) == ToInt32(n * k + t)
  {
    var m := ToInt32(n % 0x1_0000_0000);
    var q := (n - m) / 0x1_0000_0000;
    assert n == m + q * 0x1_0000_0000;
    assert n * k + t == m * k + t + (q * k) * 0x1_0000_0000;
    WrapsAway(m * k + t, q * k);
  }

  lemma WrapsAway(x: int, q: int)
    ensures ToInt32(x + q * 0x1_0000_0000) == ToInt32(x)
  {
    assert (x + q * 0x1_0000_0000 + 0x8000_0000) % 0x1_0000_0000 == (x + 0x8000_0000) % 0x1_0000_0000;
  }

  lemma OneLineLength(show: ShowReal, es: Entries)
    requires WellFormed(ArrayValue(es)) && es.Cons?
    ensures |OneLine(show, es)| == 2 * ArraySize(es) + 2 + TextLength(show, es, 0)
  {
    hide ArraySize, LeafTexts, Join, Total, TextLength, FastText;
    var texts := LeafTexts(show, es, 0);
    LeafTextsLength(show, es, es, 0);
    ArraySizeBound(es);
    JoinLength(texts, ", ");
    TotalIsTextLength(show, es, 0);
  }

  /** The writer's test is whether the line has room. */
  lemma MultilineIsSprawling(show: ShowReal, es: Entries)
    requires WellFormed(ArrayValue(es)) && UIntSize(es) > 0
    ensures Multiline(show, es) <==> Sprawls(show, es)
  {
    hide ToInt32, OneLine, TextLength, Nested, AllLeaves, ArraySize;
    NothingIsEmpty();
    OneLineLength(show, es);
    NestedIsNoLeaf(es);
    WrapsAlike(ArraySize(es), 3, 0);
    WrapsAlike(ArraySize(es), 2, 2 + TextLength(show, es, 0));
    assert 4 + (IntSize(es) - 1) * 2 + TextLength(show, es, 0) == IntSize(es) * 2 + (2 + TextLength(show, es, 0));
  }

  // ---------------------------------------------------------------- the writer's layout is that

  /** Where a value may start: at the beginning of the document or behind a space. */
  predicate Ready(d: string, ind: string) { if d == "" then ind == "" else d[|d| - 1] == ' ' }

  /** What a line break may follow. */
  predicate Solid(d: string) { d != "" && d[|d| - 1] != ' ' && d[|d| - 1] != '\n' }

  lemma SolidEnd(a: string, b: string)
    requires Solid(b)
    ensures Solid(a + b)
  {
  }

  lemma DecimalEnds(n: nat)
    ensures Decimal(n) != "" && IsDigitChar(Decimal(n)[|Decimal(n)| - 1])
  {
  }

  predicate IsDigitChar(c: char) { '0' <= c <= '9' }

  lemma ScalarIsSolid(show: ShowReal, p: Payload)
    requires Plain(p) && !p.ArrayValue? && !p.ObjectValue?
    ensures Solid(FastText(show, p))
  {
    hide EscapeAll;
    match p
    case IntValue(i) => DecimalEnds(if i < 0 then -i else i);
    case UIntValue(u) => DecimalEnds(u);
    case _ =>
  }

  lemma {:induction false} PrettyIsSolid(show: ShowReal, ind: string, p: Payload)
    requires Plain(p)
    ensures Solid(Pretty(show, ind, p))
    decreases p
  {
    hide FastText, Sprawls, PrettyItems, PrettyMembers, Join, LeafTexts, Solid;
    match p
    case ArrayValue(es) =>
      Bracketed(" ]");
      SolidEnd("[ " + Join(LeafTexts(show, es, 0), ", "), " ]");
      Assoc("[ ", Join(LeafTexts(show, es, 0), ", "), " ]");
      if UIntSize(es) > 0 {
        PrettyItemsAreSolid(show, ind, es, 0);
        SolidEnd("[", PrettyItems(show, ind, es, 0));
      }
    case ObjectValue(es) =>
      Bracketed("}");
      if es.Cons? {
        PrettyMembersAreSolid(show, ind, es);
        SolidEnd("{", PrettyMembers(show, ind, es));
      }
    case _ => ScalarIsSolid(show, p);
  }

  lemma Bracketed(s: string)
    ensures Solid("]") && Solid("}") && Solid("[]") && Solid("{}") && (s == " ]" ==> Solid(s))
  {
  }

  lemma {:induction false} PrettyItemsAreSolid(show: ShowReal, ind: string, es: Entries, i: nat)
    requires es.Cons? && PlainEntries(es)
    ensures Solid(PrettyItems(show, ind, es, i))
    decreases es, if IsHole(es, i) then es.key.index - i else 0
  {
    hide Pretty, Solid;
    var line := "\n" + (ind + "   ");
    Bracketed("]");
    SolidEnd(ind, "]");
    SolidEnd("\n", ind + "]");
    if IsHole(es, i) {
      var rest := PrettyItems(show, ind, es, i + 1);
      PrettyItemsAreSolid(show, ind, es, i + 1);
      SolidEnd(",", rest);
      SolidEnd("null", "," + rest);
      SolidEnd(line, "null" + ("," + rest));
    } else {
      var tail := if es.rest.Nil? then "\n" + (ind + "]") else "," + PrettyItems(show, ind, es.rest, i + 1);
      if es.rest.Cons? {
        PrettyItemsAreSolid(show, ind, es.rest, i + 1);
        SolidEnd(",", PrettyItems(show, ind, es.rest, i + 1));
      }
      SolidEnd(Pretty(show, ind + "   ", es.node.payload), tail);
      SolidEnd(line, Pretty(show, ind + "   ", es.node.payload) + tail);
    }
  }

  lemma {:induction false} PrettyMembersAreSolid(show: ShowReal, ind: string, es: Entries)
    requires es.Cons? && PlainEntries(es)
    ensures Solid(PrettyMembers(show, ind, es))
    decreases es
  {
    hide Pretty, Solid, Quoted, CString;
    var line, name, value := "\n" + (ind + "   "), Quoted(CString(KeyText(es.key))), Pretty(show, ind + "   ", es.node.payload);
    var tail := if es.rest.Nil? then "\n" + (ind + "}") else "," + PrettyMembers(show, ind, es.rest);
    Bracketed("}");
    if es.rest.Nil? {
      SolidEnd(ind, "}");
      SolidEnd("\n", ind + "}");
    } else {
      PrettyMembersAreSolid(show, ind, es.rest);
      SolidEnd(",", PrettyMembers(show, ind, es.rest));
    }
    SolidEnd(value, tail);
    SolidEnd(" : ", value + tail);
    SolidEnd(name, " : " + (value + tail));
    SolidEnd(line, name + (" : " + (value + tail)));
  }

  /** A line break and the indentation, behind anything solid. */
  lemma BreaksLine(d: string, ind: string)
    requires Solid(d)
    ensures Indented(d, ind) == d + ("\n" + ind)
  {
    Assoc(d, "\n", ind);
  }

  /** Behind a space, or at the start, nothing is inserted. */
  lemma StaysOnLine(d: string, ind: string)
    requires Ready(d, ind)
    ensures Indented(d, ind) == d
  {
  }

  lemma LineIsReady(d: string, ind: string)
    ensures INDENT == "   " && Ready(d + ("\n" + (ind + INDENT)), ind + INDENT)
  {
  }

  lemma OneLineIs(show: ShowReal, es: Entries, i: nat)
    requires es.Cons?
    ensures InlineItems(show, es, i) == Join(LeafTexts(show, es, i), ", ") + " ]"
    decreases es, if IsHole(es, i) then es.key.index - i else 0
  {
    hide FastText;
    var text, next := FastText(show, ItemAt(es, i)), NextItems(es, i);
    LeafTextsStep(show, es, i);
    if next.Nil? {
      assert LeafTexts(show, next, i + 1) == [];
    } else {
      var rest := LeafTexts(show, next, i + 1);
      OneLineIs(show, next, i + 1);
      LeafTextsStep(show, next, i + 1);
      assert ([text] + rest)[1..] == rest;
      Assoc(", ", Join(rest, ", "), " ]");
      Assoc(text, ", " + Join(rest, ", "), " ]");
    }
  }

  /** What the writer appends for a value is its layout, wherever the value stands. */
  lemma {:induction false} StyledIsPretty(show: ShowReal, d: string, ind: string, p: Payload)
    requires WellFormed(p) && Plain(p) && Ready(d, ind)
    ensures Styled(show, d, ind, p) == d + Pretty(show, ind, p)
    decreases p
  {
    hide FastText, Multiline, Sprawls, PrettyItems, PrettyMembers, StyledItems, StyledMembers, InlineItems, Indented, Join, LeafTexts, Ready, Solid,
         UIntSize;
    StaysOnLine(d, ind);
    Openings(d);
    match p
    case ArrayValue(es) =>
      NothingIsEmpty();
      if UIntSize(es) > 0 {
        MultilineIsSprawling(show, es);
        if Multiline(show, es) {
          StyledItemsArePretty(show, d + "[", ind, es, 0);
          Assoc(d, "[", PrettyItems(show, ind, es, 0));
        } else {
          OneLineIs(show, es, 0);
          Assoc(d, "[ ", InlineItems(show, es, 0));
        }
      }
    case ObjectValue(es) =>
      if es.Cons? {
        StyledMembersArePretty(show, d + "{", ind, es);
        Assoc(d, "{", PrettyMembers(show, ind, es));
      }
    case _ =>
  }

  lemma NothingIsEmpty()
    ensures UIntSize(Nil) == 0
  {
  }

  lemma Openings(d: string)
    ensures Solid(d + "[") && Solid(d + "{") && Solid(d + ",")
  {
  }

  lemma {:induction false} StyledItemsArePretty(show: ShowReal, d: string, ind: string, es: Entries, i: nat)
    requires es.Cons? && WellFormedEntries(es) && PlainEntries(es) && Solid(d)
    ensures StyledItems(show, d, ind, es, i) == d + PrettyItems(show, ind, es, i)
    decreases es, if IsHole(es, i) then es.key.index - i else 0
  {
    hide Styled, Pretty, Indented, Ready, Solid;
    var line := "\n" + (ind + "   ");
    var at := d + line;
    BreaksLine(d, ind + INDENT);
    LineIsReady(d, ind);
    if IsHole(es, i) {
      var rest := PrettyItems(show, ind, es, i + 1);
      Openings(at + "null");
      StyledItemsArePretty(show, at + "null" + ",", ind, es, i + 1);
      Assoc(at + "null", ",", rest);
      Assoc(at, "null", "," + rest);
      Assoc(d, line, "null" + ("," + rest));
    } else {
      var value := Pretty(show, ind + "   ", es.node.payload);
      var done := at + value;
      StyledIsPretty(show, at, ind + INDENT, es.node.payload);
      PrettyIsSolid(show, ind + "   ", es.node.payload);
      SolidEnd(at, value);
      var tail := if es.rest.Nil? then "\n" + (ind + "]") else "," + PrettyItems(show, ind, es.rest, i + 1);
      if es.rest.Nil? {
        BreaksLine(done, ind);
        Assoc(done, "\n" + ind, "]");
        Assoc("\n", ind, "]");
      } else {
        Openings(done);
        StyledItemsArePretty(show, done + ",", ind, es.rest, i + 1);
        Assoc(done, ",", PrettyItems(show, ind, es.rest, i + 1));
      }
      Assoc(at, value, tail);
      Assoc(d, line, value + tail);
    }
  }

  lemma {:induction false} StyledMembersArePretty(show: ShowReal, d: string, ind: string, es: Entries)
    requires es.Cons? && WellFormedEntries(es) && PlainEntries(es) && Solid(d)
    ensures StyledMembers(show, d, ind, es) == d + PrettyMembers(show, ind, es)
    decreases es
  {
    hide Styled, Pretty, Indented, Ready, Solid, Quoted, CString;
    var line, name := "\n" + (ind + "   "), Quoted(CString(KeyText(es.key)));
    var at := d + line;
    BreaksLine(d, ind + INDENT);
    LineIsReady(d, ind);
    var named := at + name + " : ";
    NamedIsReady(at + name, ind);
    var value := Pretty(show, ind + "   ", es.node.payload);
    var done := named + value;
    StyledIsPretty(show, named, ind + INDENT, es.node.payload);
    PrettyIsSolid(show, ind + "   ", es.node.payload);
    SolidEnd(named, value);
    var tail := if es.rest.Nil? then "\n" + (ind + "}") else "," + PrettyMembers(show, ind, es.rest);
    if es.rest.Nil? {
      BreaksLine(done, ind);
      Assoc(done, "\n" + ind, "}");
      Assoc("\n", ind, "}");
    } else {
      Openings(done);
      StyledMembersArePretty(show, done + ",", ind, es.rest);
      Assoc(done, ",", PrettyMembers(show, ind, es.rest));
    }
    Assoc(named, value, tail);
    Assoc(at + name, " : ", value + tail);
    Assoc(at, name, " : " + (value + tail));
    Assoc(d, line, name + (" : " + (value + tail)));
  }

  lemma NamedIsReady(d: string, ind: string)
    ensures Ready(d + " : ", ind + INDENT)
  {
  }

  /** The document is the layout of its value at the left margin, and a line feed. */
  lemma DocumentIsPretty(show: ShowReal, p: Payload)
    requires WellFormed(p) && Plain(p)
    ensures StyledDocument(show, p) == Pretty(show, "", p) + "\n"
  {
    hide Styled, Pretty;
    StyledIsPretty(show, "", "", p);
    assert "" + Pretty(show, "", p) == Pretty(show, "", p);
  }

  // ---------------------------------------------------------------- the layout of FastWriter

  /** The texts one behind the other. */
  function Flat(texts: seq<string>): string { if texts == [] then "" else texts[0] + Flat(texts[1..]) }

  lemma {:induction false} FlatAppend(a: seq<string>, b: seq<string>)
    ensures Flat(a + b) == Flat(a) + Flat(b)
    decreases |a|
  {
    if a == [] {
      assert a + b == b;
    } else {
      assert (a + b)[1..] == a[1..] + b;
      FlatAppend(a[1..], b);
      Assoc(a[0], Flat(a[1..]), Flat(b));
    }
  }

  lemma FlatOne(s: string)
    ensures Flat([s]) == s
  {
    assert [s][1..] == [];
  }

  /** FastWriter puts nothing between tokens. */
  lemma {:induction false} FastIsFlat(show: ShowReal, p: Payload)
    requires Plain(p)
    ensures FastText(show, p) == Flat(Tokens(Crop(p, true)))
    decreases p
  {
    hide Flat, FastItems, FastMembers, ItemTokens, MemberTokens, Quoted, IntegerText, CropEntries, IntSize;
    match p
    case ArrayValue(es) =>
      FlatOne("[");
      FlatOne("]");
      FlatAppend(["["], ["]"]);
      if IntSize(es) > 0 {
        EmptyIsZero();
        FastItemsAreFlat(show, es, 0);
        FlatAppend(["["], ItemTokens(CropEntries(es, true), 0));
      }
    case ObjectValue(es) =>
      FlatOne("{");
      FlatOne("}");
      FlatAppend(["{"], ["}"]);
      CropNil();
      if es.Cons? {
        FastMembersAreFlat(show, es);
        FlatAppend(["{"], MemberTokens(CropEntries(es, true)));
      }
    case IntValue(i) => FlatOne(IntegerText(i));
    case UIntValue(u) => FlatOne(IntegerText(u));
    case StringValue(t) => FlatOne(Quoted(t));
    case BoolValue(b) => FlatOne(if b then "true" else "false");
    case _ => FlatOne("null");
  }

  lemma EmptyIsZero()
    ensures IntSize(Nil) == 0
  {
  }

  lemma CropNil()
    ensures CropEntries(Nil, true) == Nil
  {
  }

  lemma FastItemsForm(show: ShowReal, es: Entries, i: nat)
    requires es.Cons?
    ensures FastItems(show, es, i) ==
            FastText(show, ItemAt(es, i)) + (if NextItems(es, i).Nil? then "]" else "," + FastItems(show, NextItems(es, i), i + 1))
  {
    NullText(show);
    hide FastText;
    if IsHole(es, i) { Assoc("null", ",", FastItems(show, es, i + 1)); }
  }

  lemma {:induction false} FastItemsAreFlat(show: ShowReal, es: Entries, i: nat)
    requires es.Cons? && PlainEntries(es)
    ensures CropEntries(es, true).Cons? && FastItems(show, es, i) == Flat(ItemTokens(CropEntries(es, true), i))
    decreases es, if IsHole(es, i) then es.key.index - i else 0
  {
    hide Flat, FastText, FastItems, Tokens, ItemTokens, Crop, CropEntries;
    var next, item := NextItems(es, i), ItemAt(es, i);
    CropParts(es, true, i);
    FastItemsForm(show, es, i);
    ItemTokensParts(CropEntries(es, true), i);
    if IsHole(es, i) {
      PlainNull();
      FastIsFlatNull(show);
    } else {
      FastIsFlat(show, item);
    }
    var tokens := Tokens(Crop(item, true));
    if next.Nil? {
      FlatOne("]");
      FlatAppend(tokens, ["]"]);
    } else {
      FastItemsAreFlat(show, next, i + 1);
      var rest := ItemTokens(CropEntries(next, true), i + 1);
      FlatOne(",");
      FlatAppend([","], rest);
      FlatAppend(tokens, [","] + rest);
    }
  }

  lemma PlainNull()
    ensures Plain(NullValue)
  {
  }

  lemma FastIsFlatNull(show: ShowReal)
    ensures FastText(show, NullValue) == Flat(Tokens(Crop(NullValue, true)))
  {
    FlatOne("null");
  }

  lemma {:induction false} FastMembersAreFlat(show: ShowReal, es: Entries)
    requires es.Cons? && PlainEntries(es)
    ensures CropEntries(es, true).Cons? && FastMembers(show, es) == Flat(MemberTokens(CropEntries(es, true)))
    decreases es
  {
    hide Flat, FastText, Tokens, Quoted, Crop;
    CropParts(es, true, 0);
    var cropped := CropEntries(es, true);
    var name, value := Quoted(KeyText(es.key)), Tokens(cropped.node.payload);
    var tail := if es.rest.Nil? then ["}"] else [","] + MemberTokens(cropped.rest);
    FastIsFlat(show, es.node.payload);
    if es.rest.Nil? {
      FlatOne("}");
    } else {
      FastMembersAreFlat(show, es.rest);
      FlatOne(",");
      FlatAppend([","], MemberTokens(cropped.rest));
    }
    FlatOne(name);
    FlatOne(":");
    FlatAppend(value, tail);
    FlatAppend([":"], value + tail);
    FlatAppend([name], [":"] + (value + tail));
    Assoc(name, ":", FastText(show, es.node.payload));
    Assoc(name, ":" + FastText(show, es.node.payload), Flat(tail));
    Assoc(":", FastText(show, es.node.payload), Flat(tail));
  }
}
