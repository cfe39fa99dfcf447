/** StyledWriter, with its indentation and the child texts it collects to decide the layout of an array. */
module JsonStyledWriter {
  import opened Basics
  import opened JsonValue
  import opened JsonText
  import opened JsonSpelling
  import opened JsonSizes
  import opened JsonFastText
  import opened JsonStyledText
  import opened JsonWriter

  /** valueToQuotedString: quotes the bytes before the first NUL. */
  method ValueToQuotedCString(value: string) returns (text: string)
    ensures text == Quoted(CString(value))
  {
    var length := 0;
    while length < |value| && value[length] != '\0'
      invariant length <= |value|
      invariant value[..length] + CString(value[length..]) == CString(value)
    {
      assert value[length..][1..] == value[length + 1..];
      assert value[..length + 1] == value[..length] + [value[length]];
      Assoc(value[..length], [value[length]], CString(value[length + 1..]));
      length := length + 1;
    }
    assert value[..length] + "" == value[..length];
    text := ValueToQuotedString(value[..length]);
  }

  /** The texts of an array's elements from index `i` on. */
  function LeafTexts(show: ShowReal, es: Entries, i: nat): seq<string>
    decreases es, if IsHole(es, i) then es.key.index - i else 0
  {
    if es.Nil? then [] else [FastText(show, ItemAt(es, i))] + LeafTexts(show, NextItems(es, i), i + 1)
  }

  lemma LeafTextsStep(show: ShowReal, es: Entries, i: nat)
    requires es.Cons?
    ensures LeafTexts(show, es, i) == [FastText(show, ItemAt(es, i))] + LeafTexts(show, NextItems(es, i), i + 1)
  {
  }

  lemma FirstOf<T>(s: seq<T>, i: nat)
    requires i < |s|
    ensures s[i] == s[i..][0] && s[i + 1..] == s[i..][1..]
  {
  }

  /** What is still to be written of a one-line array before element `i`. */
  function InlineLeft(show: ShowReal, es: Entries, i: nat): string {
    if es.Nil? then " ]" else (if i > 0 then ", " else "") + InlineItems(show, es, i)
  }

  lemma InlineStart(show: ShowReal, es: Entries)
    requires es.Cons?
    ensures InlineLeft(show, es, 0) == InlineItems(show, es, 0)
  {
  }

  lemma InlineEnd(show: ShowReal, i: nat)
    ensures InlineLeft(show, Nil, i) == " ]"
  {
  }

  lemma InlineLeftStep(show: ShowReal, es: Entries, i: nat)
    requires es.Cons?
    ensures InlineLeft(show, es, i) ==
            (if i > 0 then ", " else "") + (FastText(show, ItemAt(es, i)) + InlineLeft(show, NextItems(es, i), i + 1))
  {
    hide FastText;
  }

  lemma {:induction false} LeavesRemain(es: Entries, i: nat)
    requires es.Cons?
    ensures AllLeaves(es) <==> IsLeaf(ItemAt(es, i)) && AllLeaves(NextItems(es, i))
  {
  }

  lemma {:induction false} ThrowsStep(es: Entries, i: nat)
    requires es.Cons?
    ensures ThrowsEntries(es) <==> Throws(ItemAt(es, i)) || ThrowsEntries(NextItems(es, i))
    ensures !ThrowsEntries(Nil) && !Throws(NullValue)
  {
  }

  lemma LeafDoesNotThrow(p: Payload)
    requires IsLeaf(p)
    ensures !Throws(p)
  {
  }

  lemma {:induction false} LeavesDoNotThrow(es: Entries)
    ensures AllLeaves(es) ==> !ThrowsEntries(es)
    decreases es
  {
    if es.Cons? { LeavesDoNotThrow(es.rest); }
  }

  /** Adding to a wrapped number. */
  lemma WrappedSum(a: int, b: int)
    ensures ToInt32(ToInt32(a) + b) == ToInt32(a + b)
  {
  }

  class StyledWriter {
    const show: ShowReal
    var childValues_: seq<string>
    var document_: string
    var indentString_: string
    var addChildValues_: bool

    constructor (show: ShowReal)
      ensures this.show == show && childValues_ == [] && document_ == "" && indentString_ == "" && !addChildValues_
    {
      this.show := show;
      childValues_, document_, indentString_, addChildValues_ := [], "", "", false;
    }

    method Write(root: Payload) returns (thrown: bool, document: string)
      requires WellFormed(root)
      modifies this
      ensures thrown <==> Throws(root)
      ensures !thrown ==> document == document_ == StyledDocument(show, root)
    {
      document_ := "";
      addChildValues_ := false;
      indentString_ := "";
      thrown := WriteValue(root);
      if thrown { return true, ""; }
      document_ := document_ + "\n";
      return false, document_;
    }

    method PushValue(value: string)
      modifies this`childValues_, this`document_
      ensures addChildValues_ ==> document_ == old(document_) && childValues_ == old(childValues_) + [value]
      ensures !addChildValues_ ==> document_ == old(document_) + value && childValues_ == old(childValues_)
    {
      if addChildValues_ { childValues_ := childValues_ + [value]; } else { document_ := document_ + value; }
    }

    method WriteIndent()
      modifies this`document_
      ensures document_ == Indented(old(document_), indentString_)
    {
      if document_ != "" {
        var last := document_[|document_| - 1];
        if last == ' ' { return; }
        if last != '\n' { document_ := document_ + "\n"; }
      }
      document_ := document_ + indentString_;
    }

    method WriteWithIndent(value: string)
      modifies this`document_
      ensures document_ == Indented(old(document_), indentString_) + value
    {
      WriteIndent();
      document_ := document_ + value;
    }

    method Indent()
      modifies this`indentString_
      ensures indentString_ == old(indentString_) + INDENT
    {
      indentString_ := indentString_ + "   ";
    }

    method Unindent()
      requires |indentString_| >= |INDENT|
      modifies this`indentString_
      ensures indentString_ == old(indentString_)[..|old(indentString_)| - |INDENT|]
    {
      indentString_ := indentString_[..|indentString_| - 3];
    }

    /** Indentation balances; a leaf is pushed as one child text while child texts are collected. */
    method WriteValue(value: Payload) returns (thrown: bool)
      requires WellFormed(value) && (addChildValues_ ==> IsLeaf(value))
      modifies this
      ensures thrown <==> Throws(value)
      ensures addChildValues_ == old(addChildValues_) && (!thrown ==> indentString_ == old(indentString_))
      ensures addChildValues_ ==> !thrown && document_ == old(document_) && childValues_ == old(childValues_) + [FastText(show, value)]
      ensures !addChildValues_ && !thrown ==> document_ == Styled(show, old(document_), indentString_, value)
      decreases Size(value), 6
    {
      thrown := false;
      if IsLeaf(value) { LeafStyled(show, document_, indentString_, value); }
      match value {
        case NullValue => PushValue("null");
        case IntValue(i) =>
          var text := ValueToString(i);
          PushValue(text);
        case UIntValue(u) =>
          var text := ValueToString(u);
          PushValue(text);
        case RealValue(r) => PushValue(show(r));
        case StringValue(s) =>
          var text := ValueToQuotedString(s);
          PushValue(text);
        case NullString => PushValue("");
        case BoolValue(b) => PushValue(if b then "true" else "false");
        case ArrayValue(es) => if UIntSize(es) == 0 { PushValue("[]"); } else { thrown := WriteArrayValue(value); }
        case ObjectValue(es) => if es.Nil? { PushValue("{}"); } else { thrown := WriteObjectValue(value); }
      }
    }

    /** value[index]: the stored element, or the shared null of a missing one. */
    method WriteElement(ghost outer: Payload, found: Option<Node>) returns (thrown: bool)
      requires found.Some? ==> Inner(found.value.payload, outer)
      requires addChildValues_ ==> found.None? || IsLeaf(found.value.payload)
      modifies this
      ensures addChildValues_ == old(addChildValues_) && (!thrown ==> indentString_ == old(indentString_))
      ensures var p := if found.Some? then found.value.payload else NullValue;
              && (thrown <==> Throws(p))
              && (if addChildValues_ then !thrown && document_ == old(document_) && childValues_ == old(childValues_) + [FastText(show, p)]
                  else !thrown ==> document_ == Styled(show, old(document_), indentString_, p))
      decreases Size(outer), 0
    {
      thrown := false;
      if found.Some? {
        thrown := WriteValue(found.value.payload);
      } else {
        LeafStyled(show, document_, indentString_, NullValue);
        PushValue("null");
      }
    }

    /** Whether the array needs several lines; if not, the child texts hold one text for each element. */
    method IsMultineArray(value: Payload) returns (thrown: bool, isMultiLine: bool)
      requires WellFormed(value) && value.ArrayValue? && UIntSize(value.items) > 0 && !addChildValues_
      modifies this
      ensures thrown <==> Unreservable(value.items)
      ensures !thrown ==> isMultiLine == Multiline(show, value.items)
      ensures document_ == old(document_) && indentString_ == old(indentString_) && !addChildValues_
      ensures childValues_ == [] || (AllLeaves(value.items) && childValues_ == LeafTexts(show, value.items, 0))
      ensures !thrown && !isMultiLine ==> childValues_ == LeafTexts(show, value.items, 0)
      decreases Size(value), 3
    {
      thrown := false;
      var es := value.items;
      var size := IntSize(es);
      BoundIsSize(es, true);
      isMultiLine := ToInt32(size * 3) >= RIGHT_MARGIN;
      childValues_ := [];
      var nested := HasNestedContainer(es, size, isMultiLine);
      isMultiLine := isMultiLine || nested;
      if !isMultiLine {
        if size < 0 { return true, isMultiLine; }   // childValues_.reserve(size)
        addChildValues_ := true;
        StartLoop(value, true);
        var lineLength := CollectChildValues(value, size);
        addChildValues_ := false;
        isMultiLine := lineLength >= RIGHT_MARGIN;
      }
    }

    method HasNestedContainer(es: Entries, size: int, isMultiLine: bool) returns (nested: bool)
      requires IndexKeys(es) && Sorted(es) && WellFormedEntries(es) && size == IntSize(es)
      ensures !isMultiLine && size > 0 ==> nested == !AllLeaves(es)
      ensures size <= 0 ==> !nested
    {
      BoundIsSize(es, true);
      nested := false;
      ghost var rest := es;
      var index := 0;
      while index < size && !isMultiLine && !nested
        invariant 0 <= index && (size > 0 ==> index <= size && Remaining(es, rest, index))
        invariant if nested then size > 0 && !AllLeaves(es) else AllLeaves(es) == AllLeaves(rest)
      {
        RemainingStep(es, rest, index);
        LeavesRemain(rest, index);
        var found := Find(es, Index(index));
        nested := found.Some? && !IsLeaf(found.value.payload);
        rest := NextItems(rest, index);
        index := index + 1;
      }
      if size > 0 && index == size { NothingRemains(es, rest); }
    }

    method CollectChildValues(value: Payload, size: nat) returns (lineLength: int)
      requires WellFormed(value) && value.ArrayValue? && AllLeaves(value.items)
      requires 0 < size == ArraySize(value.items) && Remaining(value.items, value.items, 0)
      requires addChildValues_ && childValues_ == []
      modifies this
      ensures document_ == old(document_) && indentString_ == old(indentString_) && addChildValues_
      ensures childValues_ == LeafTexts(show, value.items, 0)
      ensures lineLength == ToInt32(4 + (size - 1) * 2 + TextLength(show, value.items, 0))
      decreases Size(value), 2
    {
      hide *;
      var es := value.items;
      ghost var total := 4 + (size - 1) * 2 + TextLength(show, es, 0);
      lineLength := ToInt32(4 + (size - 1) * 2);
      WrappedSum(4 + (size - 1) * 2, TextLength(show, es, 0));
      ghost var rest := es;
      for index := 0 to size
        invariant Remaining(es, rest, index) && AllLeaves(rest) && addChildValues_
        invariant document_ == old(document_) && indentString_ == old(indentString_)
        invariant |childValues_| == index && childValues_ + LeafTexts(show, rest, index) == LeafTexts(show, es, 0)
        invariant ToInt32(lineLength + TextLength(show, rest, index)) == ToInt32(total) && Int32(lineLength)
      {
        RemainingEnd(es, rest, index);
        LineLengthStep(show, rest, index, lineLength);
        CollectChildValue(value, rest, index);
        lineLength := ToInt32(lineLength + ToInt32(|childValues_[index]|));
        rest := NextItems(rest, index);
      }
      NothingRemains(es, rest);
      NoTextLeft(show, size);
      assert childValues_ + [] == childValues_;
    }

    method CollectChildValue(value: Payload, ghost rest: Entries, index: nat)
      requires WellFormed(value) && value.ArrayValue? && addChildValues_
      requires Remaining(value.items, rest, index) && index < ArraySize(value.items) && AllLeaves(rest)
      modifies this
      ensures document_ == old(document_) && indentString_ == old(indentString_) && addChildValues_
      ensures rest.Cons? && Remaining(value.items, NextItems(rest, index), index + 1) && AllLeaves(NextItems(rest, index))
      ensures childValues_ == old(childValues_) + [FastText(show, ItemAt(rest, index))]
      ensures childValues_ + LeafTexts(show, NextItems(rest, index), index + 1) == old(childValues_) + LeafTexts(show, rest, index)
      decreases Size(value), 1
    {
      hide *;
      RemainingStep(value.items, rest, index);
      LeavesRemain(rest, index);
      LeafTextsStep(show, rest, index);
      Assoc(childValues_, [FastText(show, ItemAt(rest, index))], LeafTexts(show, NextItems(rest, index), index + 1));
      var thrown := WriteElement(value, Find(value.items, Index(index)));
    }

    method WriteArrayValue(value: Payload) returns (thrown: bool)
      requires WellFormed(value) && value.ArrayValue? && UIntSize(value.items) > 0 && !addChildValues_
      modifies this
      ensures !addChildValues_ && (thrown <==> Throws(value))
      ensures !thrown ==> indentString_ == old(indentString_) && document_ == Styled(show, old(document_), indentString_, value)
      decreases Size(value), 5
    {
      var isArrayMultiLine;
      thrown, isArrayMultiLine := IsMultineArray(value);
      if thrown { return; }
      hide Styled, StyledItems, InlineItems, Multiline, LeafTexts, Indented, UIntSize, IntSize, AllLeaves, ThrowsEntries;
      StyledArrayForms(show, document_, indentString_, value.items);
      OneLineDoesNotThrow(show, value.items);
      if isArrayMultiLine { thrown := WriteLines(value); } else { WriteOneLine(value); }
    }

    method WriteLines(value: Payload) returns (thrown: bool)
      requires WellFormed(value) && value.ArrayValue? && UIntSize(value.items) > 0 && !addChildValues_
      requires childValues_ == [] || (AllLeaves(value.items) && childValues_ == LeafTexts(show, value.items, 0))
      modifies this
      ensures !addChildValues_ && (thrown <==> ThrowsEntries(value.items))
      ensures !thrown ==> indentString_ == old(indentString_)
      ensures !thrown ==> document_ == StyledItems(show, Indented(old(document_), indentString_) + "[", indentString_, value.items, 0)
      decreases Size(value), 4
    {
      hide StyledItems, Indented, LeafTexts, WellFormed, ThrowsEntries, Size, UIntSize, AllLeaves, Remaining;
      ghost var ind := indentString_;
      var size := UIntSize(value.items);
      StartLoop(value, false);
      WriteWithIndent("[");
      Indent();
      thrown := WriteEachLine(value, size, ind, childValues_ != []);
      if thrown { return; }
      Unindent();
      assert indentString_ == ind;
      WriteWithIndent("]");
    }

    /** The lines between the brackets. */
    method WriteEachLine(value: Payload, size: nat, ghost ind: string, hasChildValue: bool) returns (thrown: bool)
      requires WellFormed(value) && value.ArrayValue? && !addChildValues_
      requires value.items.Cons? && 0 < size == ArraySize(value.items) && Remaining(value.items, value.items, 0)
      requires hasChildValue ==> AllLeaves(value.items) && childValues_ == LeafTexts(show, value.items, 0)
      requires indentString_ == ind + INDENT
      modifies this
      ensures !addChildValues_ && (thrown <==> ThrowsEntries(value.items))
      ensures !thrown ==> indentString_ == ind + INDENT && Indented(document_, ind) + "]" == StyledItems(show, old(document_), ind, value.items, 0)
      decreases Size(value), 3
    {
      hide *;
      var es := value.items;
      var index := 0;
      ghost var rest := es;
      assert childValues_[0..] == childValues_;
      while true
        invariant 0 <= index < size && rest.Cons? && Remaining(es, rest, index)
        invariant !addChildValues_ && indentString_ == ind + INDENT && ThrowsEntries(rest) == ThrowsEntries(es)
        invariant hasChildValue ==> AllLeaves(rest) && index <= |childValues_| && childValues_[index..] == LeafTexts(show, rest, index)
        invariant StyledItems(show, document_, ind, rest, index) == StyledItems(show, old(document_), ind, es, 0)
        decreases size - index
      {
        StyledItemsStep(show, document_, ind, rest, index);
        ThrowsStep(rest, index);
        thrown := WriteLine(value, rest, index, hasChildValue);
        if thrown { return; }
        rest := NextItems(rest, index);
        index := index + 1;
        RemainingEnd(es, rest, index);
        if index == size { break; }
        document_ := document_ + ",";
      }
    }

    /** One element on its line: its collected child text if there is one, else the element itself. */
    method WriteLine(value: Payload, ghost rest: Entries, index: nat, hasChildValue: bool) returns (thrown: bool)
      requires WellFormed(value) && value.ArrayValue? && !addChildValues_
      requires rest.Cons? && Remaining(value.items, rest, index) && index < ArraySize(value.items)
      requires hasChildValue ==> AllLeaves(rest) && index <= |childValues_| && childValues_[index..] == LeafTexts(show, rest, index)
      modifies this
      ensures !addChildValues_ && (thrown <==> Throws(ItemAt(rest, index)))
      ensures !thrown ==> indentString_ == old(indentString_) && Remaining(value.items, NextItems(rest, index), index + 1)
      ensures hasChildValue ==> childValues_ == old(childValues_) && AllLeaves(NextItems(rest, index))
      ensures hasChildValue ==> index < |childValues_| && childValues_[index + 1..] == LeafTexts(show, NextItems(rest, index), index + 1)
      ensures !thrown ==> document_ == Styled(show, Indented(old(document_), indentString_), indentString_, ItemAt(rest, index))
      decreases Size(value), 2
    {
      hide *;
      thrown := false;
      RemainingStep(value.items, rest, index);
      LeavesRemain(rest, index);
      ThrowsStep(rest, index);
      LeafTextsStep(show, rest, index);
      var found := Find(value.items, Index(index));
      if hasChildValue {
        FirstOf(childValues_, index);
        LeafDoesNotThrow(ItemAt(rest, index));
        LeafStyled(show, Indented(document_, indentString_), indentString_, ItemAt(rest, index));
        WriteWithIndent(childValues_[index]);
      } else {
        WriteIndent();
        thrown := WriteElement(value, found);
      }
    }

    method WriteOneLine(value: Payload)
      requires WellFormed(value) && value.ArrayValue? && UIntSize(value.items) > 0 && !addChildValues_
      requires childValues_ == LeafTexts(show, value.items, 0)
      modifies this
      ensures indentString_ == old(indentString_) && !addChildValues_
      ensures document_ == old(document_) + "[ " + InlineItems(show, value.items, 0)
    {
      hide *;
      var es := value.items;
      var size := UIntSize(es);
      StartLoop(value, false);
      document_ := document_ + "[ ";
      ghost var whole := document_ + InlineItems(show, es, 0);
      ghost var rest := es;
      LeafTextsLength(show, es, es, 0);
      InlineStart(show, es);
      assert childValues_[0..] == childValues_;
      for index := 0 to size
        invariant Remaining(es, rest, index) && childValues_ == LeafTexts(show, es, 0)
        invariant childValues_[index..] == LeafTexts(show, rest, index) && |childValues_| == size
        invariant document_ + InlineLeft(show, rest, index) == whole
        invariant indentString_ == old(indentString_) && !addChildValues_
      {
        RemainingStep(es, rest, index);
        InlineLeftStep(show, rest, index);
        LeafTextsStep(show, rest, index);
        FirstOf(childValues_, index);
        Regroup(document_, if index > 0 then ", " else "", FastText(show, ItemAt(rest, index)), InlineLeft(show, NextItems(rest, index), index + 1));
        if index > 0 { document_ := document_ + ", "; }
        document_ := document_ + childValues_[index];
        rest := NextItems(rest, index);
      }
      NothingRemains(es, rest);
      InlineEnd(show, size);
      document_ := document_ + " ]";
    }

    method WriteObjectValue(value: Payload) returns (thrown: bool)
      requires WellFormed(value) && value.ObjectValue? && value.members.Cons? && !addChildValues_
      modifies this
      ensures !addChildValues_ && (thrown <==> Throws(value))
      ensures !thrown ==> indentString_ == old(indentString_)
      ensures !thrown ==> document_ == Styled(show, old(document_), indentString_, value)
      decreases Size(value), 3
    {
      var es := value.members;
      var members := MemberNames(es);
      ghost var ind := indentString_;
      StyledObjectForm(show, document_, ind, es);
      WriteWithIndent("{");
      Indent();
      var it := 0;
      ghost var rest, start := es, document_;
      assert RemainingMembers(es, rest) by { StartObject(show, value); }
      hide Styled, StyledMembers, Indented, FastText, Find, Size, Inner, WellFormed, RemainingMembers, Quoted, CString;
      while true
        invariant 0 <= it < |members| && MemberNames(rest) == members[it..] && RemainingMembers(es, rest) && rest.Cons?
        invariant !addChildValues_ && indentString_ == ind + INDENT && ThrowsEntries(rest) == ThrowsEntries(es)
        invariant StyledMembers(show, document_, ind, rest) == StyledMembers(show, start, ind, es)
        decreases |members| - it
      {
        RemainingMembersStep(es, rest);
        StyledMembersStep(show, document_, ind, rest);
        var name := members[it];
        assert name == members[it..][0] && members[it + 1..] == members[it..][1..];
        var found := Find(es, Name(name));
        var quoted := ValueToQuotedCString(name);
        WriteWithIndent(quoted);
        document_ := document_ + " : ";
        thrown := WriteElement(value, found);
        if thrown { return; }
        rest := rest.rest;
        it := it + 1;
        if it == |members| { break; }
        document_ := document_ + ",";
      }
      Unindent();
      assert indentString_ == ind;
      WriteWithIndent("}");
    }
  }

  lemma OneLineDoesNotThrow(show: ShowReal, es: Entries)
    ensures !Multiline(show, es) ==> !ThrowsEntries(es)
  {
    LeavesDoNotThrow(es);
  }

  /** One more text on the line. */
  lemma LineLengthStep(show: ShowReal, es: Entries, i: nat, lineLength: int)
    requires es.Cons?
    ensures ToInt32(ToInt32(lineLength + ToInt32(|FastText(show, ItemAt(es, i))|)) + TextLength(show, NextItems(es, i), i + 1))
         == ToInt32(lineLength + TextLength(show, es, i))
  {
    hide *;
    TextLengthStep(show, es, i);
    var text, left := |FastText(show, ItemAt(es, i))|, TextLength(show, NextItems(es, i), i + 1);
    WrappedSum(lineLength + ToInt32(text), left);
    WrappedSum(text, lineLength + left);
  }

  lemma TextLengthStep(show: ShowReal, es: Entries, i: nat)
    requires es.Cons?
    ensures TextLength(show, es, i) == |FastText(show, ItemAt(es, i))| + TextLength(show, NextItems(es, i), i + 1)
  {
  }

  lemma NoTextLeft(show: ShowReal, i: nat)
    ensures TextLength(show, Nil, i) == 0 && LeafTexts(show, Nil, i) == []
  {
  }

  lemma StyledItemsStep(show: ShowReal, d: string, ind: string, es: Entries, i: nat)
    requires es.Cons?
    ensures var deeper, next := ind + INDENT, NextItems(es, i);
            var done := Styled(show, Indented(d, deeper), deeper, ItemAt(es, i));
            StyledItems(show, d, ind, es, i) ==
            if next.Nil? then Indented(done, ind) + "]" else StyledItems(show, done + ",", ind, next, i + 1)
  {
    LeafStyled(show, Indented(d, ind + INDENT), ind + INDENT, NullValue);
    hide Indented, Styled;
    NullText(show);
  }

  lemma StyledMembersStep(show: ShowReal, d: string, ind: string, es: Entries)
    requires es.Cons?
    ensures var deeper := ind + INDENT;
            var done := Styled(show, Indented(d, deeper) + Quoted(CString(KeyText(es.key))) + " : ", deeper, es.node.payload);
            StyledMembers(show, d, ind, es) ==
            if es.rest.Nil? then Indented(done, ind) + "}" else StyledMembers(show, done + ",", ind, es.rest)
  {
    hide Indented, Styled, Quoted, CString;
  }

  lemma NothingRemains(es: Entries, rest: Entries)
    requires Remaining(es, rest, ArraySize(es))
    ensures rest.Nil?
  {
    if rest.Cons? { ArraySizeAbove(rest); }
  }

  lemma RemainingEnd(es: Entries, rest: Entries, index: nat)
    requires Remaining(es, rest, index)
    ensures rest.Nil? <==> index == ArraySize(es)
    ensures rest.Cons? ==> index < ArraySize(es)
  {
    if rest.Cons? { ArraySizeAbove(rest); }
  }

  /** One text for each element, missing ones included. */
  lemma {:induction false} LeafTextsLength(show: ShowReal, es: Entries, rest: Entries, index: nat)
    requires Remaining(es, rest, index) && index <= ArraySize(es)
    ensures |LeafTexts(show, rest, index)| == ArraySize(es) - index
    decreases ArraySize(es) - index
  {
    if index < ArraySize(es) {
      RemainingStep(es, rest, index);
      LeafTextsLength(show, es, NextItems(rest, index), index + 1);
    } else {
      NothingRemains(es, rest);
    }
  }
}
