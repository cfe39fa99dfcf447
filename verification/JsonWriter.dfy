/** FastWriter and the conversions it uses, as loops that fill a buffer or append to a document. */
module JsonWriter {
  import opened Basics
  import opened JsonValue
  import opened JsonText
  import opened JsonSpelling
  import opened JsonSizes
  import opened JsonFastText

  const BUFFER_SIZE := 25   // three characters for each of the eight bytes, and the NUL

  /** Decimal digits and a NUL, written downwards from `current`; nothing outside them changes. */
  method UintToString(value: nat, buffer: array<char>, current: nat) returns (first: nat)
    requires value <= MAX_LARGEST_UINT && 21 <= current <= buffer.Length
    modifies buffer
    ensures current - 21 <= first && first + |Decimal(value)| + 1 == current
    ensures buffer[first..current] == Decimal(value) + ['\0']
    ensures buffer[..first] == old(buffer[..first]) && buffer[current..] == old(buffer[current..])
  {
    DecimalFits(value);
    first := current - 1;
    buffer[first] := '\0';
    var rest := value;
    ghost var written, start := ['\0'], buffer[..];
    hide Decimal;
    assert start[..first] == old(buffer[..first]) && start[current..] == old(buffer[current..]);
    while true
      invariant |Decimal(rest)| <= first < current && rest >= 0
      invariant Decimal(rest) + written == Decimal(value) + ['\0']
      invariant first + |written| == current
      invariant buffer[..] == start[..first] + written + start[current..]
      decreases rest
    {
      DecimalStep(rest);
      var digit := Digit(rest % 10);
      ghost var was := buffer[..];
      first := first - 1;
      buffer[first] := digit;
      StoreBefore(start, was, first, written, current, digit);
      assert buffer[..] == was[first := digit];
      Assoc(if rest < 10 then "" else Decimal(rest / 10), [digit], written);
      written := [digit] + written;
      if rest / 10 == 0 {
        assert "" + written == written;
        break;
      }
      rest := rest / 10;
    }
    StoredText(buffer[..], start, first, written, current);
  }

  lemma StoreBefore(start: string, was: string, first: nat, written: string, current: nat, c: char)
    requires first + 1 + |written| == current <= |start|
    requires was == start[..first + 1] + written + start[current..]
    ensures was[first := c] == start[..first] + ([c] + written) + start[current..]
  {
  }

  lemma StoredText(now: string, start: string, first: nat, written: string, current: nat)
    requires first + |written| == current <= |start|
    requires now == start[..first] + written + start[current..]
    ensures now[first..current] == written && now[..first] == start[..first] && now[current..] == start[current..]
  {
  }

  lemma DecimalStep(n: nat)
    ensures Decimal(n) == (if n < 10 then "" else Decimal(n / 10)) + [Digit(n % 10)]
  {
  }

  lemma DecimalFits(value: nat)
    requires value <= MAX_LARGEST_UINT
    ensures |Decimal(value)| <= 20
  {
    assert value < Power10(20) by { PowerOfTwenty(); }
    DecimalLength(value, 20);
  }

  lemma PowerOfTwenty()
    ensures Power10(20) == 100_000_000_000_000_000_000
  {
    assert Power10(5) == 100_000;
    assert Power10(10) == 10_000_000_000;
    assert Power10(15) == 1_000_000_000_000_000;
  }

  /** valueToString for both integer types: the text never outgrows the buffer. */
  method ValueToString(value: int) returns (text: string)
    requires -MAX_LARGEST_INT - 1 <= value <= MAX_LARGEST_UINT
    ensures text == IntegerText(value)
  {
    var buffer := new char[BUFFER_SIZE];
    var current := BUFFER_SIZE;
    if value == -MAX_LARGEST_INT - 1 {
      current := UintToString(MAX_LARGEST_INT + 1, buffer, current);
      current := current - 1;
      buffer[current] := '-';
    } else if value < 0 {
      current := UintToString(-value, buffer, current);
      current := current - 1;
      buffer[current] := '-';
    } else {
      current := UintToString(value, buffer, current);
    }
    text := buffer[current..BUFFER_SIZE - 1];
    ghost var digits := Decimal(if value < 0 then -value else value);
    ghost var at := BUFFER_SIZE - 1 - |digits|;
    assert buffer[at..BUFFER_SIZE] == digits + ['\0'];
    assert buffer[at..BUFFER_SIZE - 1] == buffer[at..BUFFER_SIZE][..|digits|] == digits;
    if value < 0 { assert text == [buffer[current]] + buffer[at..BUFFER_SIZE - 1]; }
  }

  predicate NeedsEscape(c: char) { Escape(c) != [c] }

  /** valueToQuotedStringN: strings without special bytes are copied, the others escaped byte by byte. */
  method ValueToQuotedString(value: string) returns (text: string)
    ensures text == Quoted(value)
  {
    var special := false;
    for i := 0 to |value|
      invariant !special ==> forall j :: 0 <= j < i ==> !NeedsEscape(value[j])
    {
      if NeedsEscape(value[i]) { special := true; break; }
    }
    if !special {
      PlainEscape(value);
      return "\"" + value + "\"";
    }
    text := EscapeLoop(value);
  }

  method EscapeLoop(value: string) returns (text: string)
    ensures text == Quoted(value)
  {
    text := "\"";
    hide Escape, EscapeAll;
    assert value[0..] == value;
    for i := 0 to |value|
      invariant text + EscapeAll(value[i..]) == "\"" + EscapeAll(value)
    {
      EscapeAllStep(value, i);
      Assoc(text, Escape(value[i]), EscapeAll(value[i + 1..]));
      text := text + Escape(value[i]);
    }
    assert EscapeAll(value[|value|..]) == "" by { EscapeAllNothing(value); }
    assert text == "\"" + EscapeAll(value);
    text := text + "\"";
  }

  lemma EscapeAllStep(s: string, i: nat)
    requires i < |s|
    ensures EscapeAll(s[i..]) == Escape(s[i]) + EscapeAll(s[i + 1..])
  {
  }

  lemma EscapeAllNothing(s: string)
    ensures EscapeAll(s[|s|..]) == ""
  {
  }

  lemma {:induction false} PlainEscape(s: string)
    requires forall j :: 0 <= j < |s| ==> !NeedsEscape(s[j])
    ensures EscapeAll(s) == s
    decreases s
  {
    if s != [] {
      assert !NeedsEscape(s[0]);
      forall j | 0 <= j < |s[1..]| ensures !NeedsEscape(s[1..][j]) { assert !NeedsEscape(s[j + 1]); }
      PlainEscape(s[1..]);
      assert [s[0]] + s[1..] == s;
    }
  }

  // ---------------------------------------------------------------- lookups in sorted maps

  /** A well-formed value nested in another. */
  ghost predicate Inner(p: Payload, outer: Payload) {
    WellFormed(p) && Size(p) < Size(outer)
  }

  /** Every key of a sorted map lies above the bound it is sorted above. */
  lemma {:induction false} FoundAbove(low: CZString, es: Entries, key: CZString)
    requires SortedAbove(low, es) && Find(es, key).Some?
    ensures KeyLess(low, key) && key != low
    decreases es
  {
    KeyLessTotal(low, key);
    if es.key != key {
      FoundAbove(es.key, es.rest, key);
      KeyLessTransitive(low, es.key, key);
    }
  }

  lemma {:induction false} ArraySizeAbove(es: Entries)
    requires es.Cons? && IndexKeys(es) && Sorted(es)
    ensures es.key.index < ArraySize(es)
    decreases es
  {
    if es.rest.Cons? { ArraySizeAbove(es.rest); }
  }

  /** `rest` is the part of the array `es` that holds the indices from `index` on. */
  ghost predicate Remaining(es: Entries, rest: Entries, index: nat) {
    && (forall k: nat {:trigger Find(es, Index(k))} :: index <= k ==> Find(es, Index(k)) == Find(rest, Index(k)))
    && (if rest.Nil? then index == ArraySize(es)
        else IndexKeys(rest) && Sorted(rest) && index <= rest.key.index && ArraySize(rest) == ArraySize(es)
             && WellFormedEntries(rest) && SizeEntries(rest) <= SizeEntries(es))
  }

  lemma RemainingStep(es: Entries, rest: Entries, index: nat)
    requires Remaining(es, rest, index) && index < ArraySize(es)
    ensures rest.Cons?
    ensures Find(es, Index(index)) == if IsHole(rest, index) then None else Some(rest.node)
    ensures ItemAt(rest, index) == if IsHole(rest, index) then NullValue else rest.node.payload
    ensures Remaining(es, NextItems(rest, index), index + 1)
    ensures Inner(rest.node.payload, ArrayValue(es))
  {
    ArraySizeAbove(rest);
    if IsHole(rest, index) {
      if Find(rest, Index(index)).Some? { FoundAbove(rest.key, rest.rest, Index(index)); }
    }
  }

  /** `rest` is the part of the object `es` not yet written. */
  ghost predicate RemainingMembers(es: Entries, rest: Entries) {
    && (forall key {:trigger Find(rest, key)} :: Find(rest, key).Some? ==> Find(es, key) == Find(rest, key))
    && Sorted(rest) && NameKeys(rest) && WellFormedEntries(rest) && SizeEntries(rest) <= SizeEntries(es)
  }

  lemma RemainingMembersStep(es: Entries, rest: Entries)
    requires RemainingMembers(es, rest) && MemberNames(rest) != []
    ensures rest.Cons? && Find(es, rest.key) == Some(rest.node)
    ensures RemainingMembers(es, rest.rest)
    ensures Inner(rest.node.payload, ObjectValue(es)) && rest.key == Name(KeyText(rest.key))
  {
    assert Find(rest, rest.key).Some?;
    forall key | Find(rest.rest, key).Some? ensures Find(es, key) == Find(rest.rest, key) {
      FoundAbove(rest.key, rest.rest, key);
      assert Find(rest, key).Some?;
    }
  }

  /** getMemberNames: the keys in map order. */
  function MemberNames(es: Entries): seq<string> {
    if es.Nil? then [] else [KeyText(es.key)] + MemberNames(es.rest)
  }

  /** The names come in byte order. */
  lemma {:induction false} NamesAscend(es: Entries, i: nat, j: nat)
    requires NameKeys(es) && Sorted(es) && i < j < |MemberNames(es)|
    ensures exists k: nat :: BeforeAt(MemberNames(es)[i], MemberNames(es)[j], k)
    decreases es
  {
    if i > 0 {
      NamesAscend(es.rest, i - 1, j - 1);
      assert MemberNames(es)[i] == MemberNames(es.rest)[i - 1] && MemberNames(es)[j] == MemberNames(es.rest)[j - 1];
    } else {
      NamesAbove(es.key, es.rest, j - 1);
      assert MemberNames(es)[i] == es.key.str && MemberNames(es)[j] == MemberNames(es.rest)[j - 1];
      StringLessMeans(es.key.str, MemberNames(es.rest)[j - 1]);
    }
  }

  lemma {:induction false} NamesAbove(low: CZString, es: Entries, j: nat)
    requires low.Name? && NameKeys(es) && SortedAbove(low, es) && j < |MemberNames(es)|
    ensures StringLess(low.str, MemberNames(es)[j])
    decreases es
  {
    if j > 0 {
      NamesAbove(es.key, es.rest, j - 1);
      StringLessTransitive(low.str, es.key.str, MemberNames(es.rest)[j - 1]);
    }
  }

  class FastWriter {
    const show: ShowReal
    var document_: string

    constructor (show: ShowReal)
      ensures this.show == show && document_ == ""
    {
      this.show := show;
      document_ := "";
    }

    method Write(root: Payload) returns (document: string)
      requires WellFormed(root)
      modifies this
      ensures document == document_ == FastDocument(show, root)
    {
      document_ := "";
      WriteValue(root);
      document_ := document_ + "\n";
      assert "" + FastText(show, root) == FastText(show, root);
      return document_;
    }

    method WriteValue(value: Payload)
      requires WellFormed(value)
      modifies this
      ensures document_ == old(document_) + FastText(show, value)
      decreases Size(value), 3
    {
      match value {
        case NullValue => document_ := document_ + "null";
        case IntValue(i) =>
          var text := ValueToString(i);
          document_ := document_ + text;
        case UIntValue(u) =>
          var text := ValueToString(u);
          document_ := document_ + text;
        case RealValue(r) => document_ := document_ + show(r);
        case StringValue(s) =>
          var text := ValueToQuotedString(s);
          document_ := document_ + text;
        case NullString =>
        case BoolValue(b) => document_ := document_ + (if b then "true" else "false");
        case ArrayValue(es) => WriteArray(value);
        case ObjectValue(es) => WriteObject(value);
      }
    }

    method WriteArray(value: Payload)
      requires WellFormed(value) && value.ArrayValue?
      modifies this
      ensures document_ == old(document_) + FastText(show, value)
      decreases Size(value), 2
    {
      hide *;
      var es := value.items;
      var size := IntSize(es);
      StartArray(show, value);
      StartLoop(value, true);
      ghost var before := document_;
      ghost var text := FastText(show, value);
      document_ := document_ + "[";
      var index := 0;
      ghost var rest := es;
      Assoc(before, "[", ArrayLeft(show, size, rest, index));
      while index < size
        invariant 0 <= index && (size > 0 ==> index <= size && Remaining(es, rest, index))
        invariant document_ + ArrayLeft(show, size, rest, index) == before + text
      {
        RemainingStep(es, rest, index);
        ArrayLeftIs(show, size, rest, index);
        ArrayLeftIs(show, size, NextItems(rest, index), index + 1);
        ItemsLeftStep(show, rest, index);
        ghost var comma := if index > 0 then "," else "";
        Regroup(document_, comma, FastText(show, ItemAt(rest, index)), ItemsLeft(show, NextItems(rest, index), index + 1));
        if index > 0 { document_ := document_ + ","; }
        var found := Find(es, Index(index));
        WriteElement(value, found);
        rest := NextItems(rest, index);
        index := index + 1;
      }
      ArrayLeftNone(show, es, rest, index);
      document_ := document_ + "]";
    }

    /** value[index]: the stored element, or the shared null of a missing one. */
    method WriteElement(ghost outer: Payload, found: Option<Node>)
      requires found.Some? ==> Inner(found.value.payload, outer)
      modifies this
      ensures document_ == old(document_) + FastText(show, if found.Some? then found.value.payload else NullValue)
      decreases Size(outer), 0
    {
      if found.Some? { WriteValue(found.value.payload); } else { document_ := document_ + "null"; }
    }

    method WriteMember(ghost outer: Payload, name: string, found: Option<Node>)
      requires found.Some? && Inner(found.value.payload, outer)
      modifies this
      ensures document_ == old(document_) + ((Quoted(name) + ":") + FastText(show, found.value.payload))
      decreases Size(outer), 1
    {
      ghost var before := document_;
      var quoted := ValueToQuotedString(name);
      document_ := document_ + quoted;
      document_ := document_ + ":";
      hide Quoted;
      Assoc(before, quoted, ":");
      Assoc(before, quoted + ":", FastText(show, found.value.payload));
      WriteElement(outer, found);
    }

    method WriteObject(value: Payload)
      requires WellFormed(value) && value.ObjectValue?
      modifies this
      ensures document_ == old(document_) + FastText(show, value)
      decreases Size(value), 2
    {
      StartObject(show, value);
      hide *;
      var es := value.members;
      var members := MemberNames(es);
      ghost var before := document_;
      ghost var text := FastText(show, value);
      document_ := document_ + "{";
      ghost var rest := es;
      Assoc(before, "{", MembersLeft(show, rest, true));
      for it := 0 to |members|
        invariant RemainingMembers(es, rest) && MemberNames(rest) == members[it..]
        invariant document_ + MembersLeft(show, rest, it == 0) == before + text
      {
        RemainingMembersStep(es, rest);
        MembersLeftStep(show, rest, it == 0);
        assert members[it..][1..] == members[it + 1..];
        var name := members[it];
        ghost var comma := if it != 0 then "," else "";
        Regroup(document_, comma, MemberText(show, rest), MembersLeft(show, rest.rest, false));
        if it != 0 { document_ := document_ + ","; }
        WriteMember(value, name, Find(es, Name(name)));
        rest := rest.rest;
      }
      MembersLeftNone(show, rest);
      document_ := document_ + "}";
    }
  }

  /** What is still to be written of an array before index `i`, closing bracket included. */
  function ItemsLeft(show: ShowReal, es: Entries, i: nat): string {
    if es.Nil? then "]" else (if i > 0 then "," else "") + FastItems(show, es, i)
  }

  function MembersLeft(show: ShowReal, es: Entries, first: bool): string {
    if es.Nil? then "}" else (if first then "" else ",") + FastMembers(show, es)
  }

  /** The same for a loop up to `size`: with no turn to take, only the bracket is left. */
  function ArrayLeft(show: ShowReal, size: int, es: Entries, i: nat): string {
    if size <= 0 then "]" else ItemsLeft(show, es, i)
  }

  lemma ArrayLeftIs(show: ShowReal, size: int, es: Entries, i: nat)
    ensures size > 0 ==> ArrayLeft(show, size, es, i) == ItemsLeft(show, es, i)
  {
  }

  lemma StartArray(show: ShowReal, value: Payload)
    requires value.ArrayValue?
    ensures FastText(show, value) == "[" + ArrayLeft(show, IntSize(value.items), value.items, 0)
  {
    hide FastItems;
  }

  /** A loop up to a positive bound covers the array. */
  lemma StartLoop(value: Payload, signed: bool)
    requires WellFormed(value) && value.ArrayValue?
    ensures var size := if signed then IntSize(value.items) else UIntSize(value.items);
            size > 0 ==> value.items.Cons? && size == ArraySize(value.items)
    ensures Remaining(value.items, value.items, 0)
  {
    BoundIsSize(value.items, signed);
  }

  lemma ArrayLeftNone(show: ShowReal, es: Entries, rest: Entries, i: nat)
    requires IntSize(es) > 0 ==> i == ArraySize(es) && Remaining(es, rest, i)
    ensures ArrayLeft(show, IntSize(es), rest, i) == "]"
  {
    if IntSize(es) > 0 && rest.Cons? { ArraySizeAbove(rest); }
  }

  lemma Regroup(done: string, comma: string, item: string, left: string)
    ensures done + (comma + (item + left)) == ((done + comma) + item) + left
    ensures done + "" == done
  {
  }

  lemma StartObject(show: ShowReal, value: Payload)
    requires WellFormed(value) && value.ObjectValue?
    ensures RemainingMembers(value.members, value.members)
    ensures FastText(show, value) == "{" + MembersLeft(show, value.members, true)
  {
  }

  lemma MembersLeftNone(show: ShowReal, es: Entries)
    ensures MemberNames(es) == [] ==> MembersLeft(show, es, true) == MembersLeft(show, es, false) == "}"
  {
  }

  lemma ItemsLeftStep(show: ShowReal, es: Entries, i: nat)
    requires es.Cons?
    ensures ItemsLeft(show, es, i)
         == (if i > 0 then "," else "") + (FastText(show, ItemAt(es, i)) + ItemsLeft(show, NextItems(es, i), i + 1))
  {
  }

  /** A member's name, colon and value. */
  function MemberText(show: ShowReal, es: Entries): string
    requires es.Cons?
  {
    (Quoted(KeyText(es.key)) + ":") + FastText(show, es.node.payload)
  }

  lemma MembersLeftStep(show: ShowReal, es: Entries, first: bool)
    requires es.Cons?
    ensures MemberNames(es) == [KeyText(es.key)] + MemberNames(es.rest)
    ensures MemberText(show, es) == (Quoted(KeyText(es.key)) + ":") + FastText(show, es.node.payload)
    ensures MembersLeft(show, es, first) == (if first then "" else ",") + (MemberText(show, es) + MembersLeft(show, es.rest, false))
  {
  }
}
