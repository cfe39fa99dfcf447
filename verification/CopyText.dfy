/** COPY text lines: stream_to escapes fields into them, stream_from unescapes and splits them in one in-place buffer. */
module CopyText {
  import opened Basics

  datatype Field = Null | Text(text: string)

  /** Characters a line can carry: printable ASCII and the six control characters with an escape of their own. */
  predicate Safe(c: char) { ' ' <= c <= '~' || Letter(c) != ' ' }

  const BACKSPACE := 0x08 as char
  const VERTICAL_TAB := 0x0b as char
  const FORM_FEED := 0x0c as char

  /** The letter that stands for a control character after a backslash, or a space. */
  function Letter(c: char): char {
    if c == BACKSPACE then 'b' else if c == FORM_FEED then 'f' else if c == '\n' then 'n'
    else if c == '\r' then 'r' else if c == '\t' then 't' else if c == VERTICAL_TAB then 'v' else ' '
  }

  function NumberToDigit(i: nat): char
    requires i < 8
  {
    '0' + i as char
  }

  /** The three octal digits of a byte. */
  function Octal(c: char): (digits: string)
    ensures |digits| == 3 && forall k :: 0 <= k < 3 ==> '0' <= digits[k] <= '7'
  {
    var u := c as int;
    [NumberToDigit(u / 64 % 8), NumberToDigit(u / 8 % 8), NumberToDigit(u % 8)]
  }

  function EscapedChar(c: char): string {
    if Letter(c) != ' ' then ['\\', Letter(c)]
    else if c == '\\' then "\\\\"
    else if c < ' ' || c > '~' then "\\" + Octal(c)
    else [c]
  }

  function Escaped(s: string): string {
    if s == "" then "" else EscapedChar(s[0]) + Escaped(s[1..])
  }

  /** A field in the buffer, with the tab that follows it. */
  function FieldText(f: Field): string { (match f case Null => "\\N" case Text(s) => Escaped(s)) + "\t" }

  function RowText(row: seq<Field>): string {
    if row == [] then "" else FieldText(row[0]) + RowText(row[1..])
  }

  /** The line for a row: no tab after the last field. */
  function Line(row: seq<Field>): string {
    var t := RowText(row);
    if t == "" then "" else t[..|t| - 1]
  }

  class StreamTo {
    var m_buffer: string
    /** The lines handed to the connection. */
    var written: seq<string>

    constructor ()
      ensures m_buffer == "" && written == []
    {
      m_buffer, written := "", [];
    }

    method EscapeFieldToBuffer(buf: string)
      modifies this`m_buffer
      ensures m_buffer == old(m_buffer) + FieldText(Text(buf))
    {
      ghost var start := m_buffer;
      assert buf[0..] == buf && start + "" == start;
      for i := 0 to |buf|
        invariant m_buffer + Escaped(buf[i..]) == start + Escaped(buf)
      {
        var c := buf[i];
        ghost var before := m_buffer;
        assert buf[i..][1..] == buf[i + 1..];
        if c == BACKSPACE { m_buffer := m_buffer + "\\b"; }
        else if c == FORM_FEED { m_buffer := m_buffer + "\\f"; }
        else if c == '\n' { m_buffer := m_buffer + "\\n"; }
        else if c == '\r' { m_buffer := m_buffer + "\\r"; }
        else if c == '\t' { m_buffer := m_buffer + "\\t"; }
        else if c == VERTICAL_TAB { m_buffer := m_buffer + "\\v"; }
        else if c == '\\' { m_buffer := m_buffer + "\\\\"; }
        else if c < ' ' || c > '~' { AppendOctal(c); }
        else { m_buffer := m_buffer + [c]; }
        assert m_buffer == before + EscapedChar(c);
        Assoc(before, EscapedChar(c), Escaped(buf[i + 1..]));
      }
      assert buf[|buf|..] == "" && m_buffer + "" == m_buffer;
      Assoc(start, Escaped(buf), "\t");
      m_buffer := m_buffer + "\t";
    }

    method AppendOctal(c: char)
      modifies this`m_buffer
      ensures m_buffer == old(m_buffer) + ("\\" + Octal(c))
    {
      m_buffer := m_buffer + "\\";
      var u := c as int;
      m_buffer := m_buffer + [NumberToDigit(u / 64 % 8)];
      m_buffer := m_buffer + [NumberToDigit(u / 8 % 8)];
      m_buffer := m_buffer + [NumberToDigit(u % 8)];
    }

    method AppendToBuffer(f: Field)
      modifies this`m_buffer
      ensures m_buffer == old(m_buffer) + FieldText(f)
    {
      match f {
        case Null => m_buffer := m_buffer + "\\N\t";
        case Text(text) => EscapeFieldToBuffer(text);
      }
    }

    /** Sends the buffer as a line, without the tab that ends it. */
    method WriteBuffer(ghost row: seq<Field>)
      requires m_buffer == RowText(row)
      modifies this
      ensures m_buffer == "" && written == old(written) + [Line(row)]
    {
      if m_buffer != "" { m_buffer := m_buffer[..|m_buffer| - 1]; }
      written := written + [m_buffer];
      m_buffer := "";
    }

    method WriteRow(row: seq<Field>)
      requires m_buffer == ""
      modifies this
      ensures m_buffer == "" && written == old(written) + [Line(row)]
    {
      assert row[0..] == row;
      for i := 0 to |row|
        invariant m_buffer + RowText(row[i..]) == RowText(row) && written == old(written)
      {
        assert row[i..][1..] == row[i + 1..];
        Assoc(m_buffer, FieldText(row[i]), RowText(row[i + 1..]));
        AppendToBuffer(row[i]);
      }
      assert m_buffer + "" == m_buffer;
      WriteBuffer(row);
    }
  }

  datatype Why = EndsInBackslash | NullInNonemptyField

  /** What a line means: its fields, or the failure thrown. */
  datatype Parsed = Row(fields: seq<Field>) | Failed(why: Why)

  /** A null field stays null whatever follows it. */
  function Append(f: Field, c: char): Field { if f.Null? then Null else Text(f.text + [c]) }

  function Unescape(c: char): char {
    match c
    case 'b' => BACKSPACE
    case 'f' => FORM_FEED
    case 'n' => '\n'
    case 'r' => '\r'
    case 't' => '\t'
    case 'v' => VERTICAL_TAB
    case _ => c
  }

  /** The rest of a line, from `i` on, after the fields in `done` and the part `current` of the next. */
  function ParseFrom(line: string, i: nat, current: Field, done: seq<Field>): Parsed
    requires i <= |line|
    decreases |line| - i
  {
    if i == |line| then Row(done + [current])
    else if line[i] == '\t' then ParseFrom(line, i + 1, Text(""), done + [current])
    else if line[i] != '\\' then ParseFrom(line, i + 1, Append(current, line[i]), done)
    else if i + 1 == |line| then Failed(EndsInBackslash)
    else if line[i + 1] != 'N' then ParseFrom(line, i + 2, Append(current, Unescape(line[i + 1])), done)
    else if current == Text("") then ParseFrom(line, i + 2, Null, done)
    else Failed(NullInNonemptyField)
  }

  function Parse(line: string): Parsed { ParseFrom(line, 0, Text(""), []) }

  /** A field as the reader keeps it: null, or a view of the row buffer. */
  datatype View = NullView | Range(begin: nat, length: nat)

  function Viewed(v: View, row: seq<char>): Field
    requires v.Range? ==> v.begin + v.length <= |row|
  {
    if v.NullView? then Null else Text(row[v.begin..v.begin + v.length])
  }

  /** Views are closed by a zero that lies before `end`. */
  ghost predicate ViewsEnd(views: seq<View>, row: seq<char>, end: nat) {
    end <= |row| && forall k :: 0 <= k < |views| && views[k].Range? ==>
      views[k].begin + views[k].length < end && row[views[k].begin + views[k].length] == '\0'
  }

  function AllViewed(views: seq<View>, row: seq<char>): (fields: seq<Field>)
    requires forall k :: 0 <= k < |views| && views[k].Range? ==> views[k].begin + views[k].length <= |row|
    ensures |fields| == |views| && forall k :: 0 <= k < |views| ==> fields[k] == Viewed(views[k], row)
  {
    seq(|views|, k requires 0 <= k < |views| => Viewed(views[k], row))
  }

  /** Writing at or after the end leaves the views alone. */
  lemma ViewsKept(views: seq<View>, row: seq<char>, row': seq<char>, end: nat)
    requires ViewsEnd(views, row, end) && |row'| == |row| && row'[..end] == row[..end]
    ensures ViewsEnd(views, row', end) && AllViewed(views, row') == AllViewed(views, row)
  {
    forall k | 0 <= k < |views| && views[k].Range?
      ensures row'[views[k].begin..views[k].begin + views[k].length] == row[views[k].begin..views[k].begin + views[k].length]
      ensures row'[views[k].begin + views[k].length] == '\0'
    {
      assert row[..end][views[k].begin..views[k].begin + views[k].length] == row[views[k].begin..views[k].begin + views[k].length];
      assert row'[..end][views[k].begin..views[k].begin + views[k].length] == row'[views[k].begin..views[k].begin + views[k].length];
      assert row[..end][views[k].begin + views[k].length] == row'[..end][views[k].begin + views[k].length];
    }
  }

  /** The field being read: null, or what has been written since it began. */
  function Open(field_begin: Option<nat>, row: seq<char>, write: nat): Field
    requires field_begin.Some? ==> field_begin.value <= write <= |row|
  {
    if field_begin.None? then Null else Text(row[field_begin.value..write])
  }

  /** The state of parse_line between two characters; `mark` is where the current field began. */
  ghost predicate Reading(line: string, read: nat, row: seq<char>, write: nat, field_begin: Option<nat>, mark: nat, views: seq<View>) {
    && read <= |line| && write <= read && |row| == |line| + 1 && mark <= write
    && (field_begin.Some? ==> field_begin.value == mark) && ViewsEnd(views, row, mark)
    && Parse(line) == ParseFrom(line, read, Open(field_begin, row, write), AllViewed(views, row))
  }

  lemma ReadingStarts(line: string, row: seq<char>)
    requires |row| == |line| + 1
    ensures Reading(line, 0, row, 0, Some(0), 0, [])
  {
  }

  /** One character is written, after one or two are read. */
  lemma ReadingWrites(line: string, read: nat, row: seq<char>, write: nat, field_begin: Option<nat>, mark: nat, views: seq<View>,
                      row': seq<char>, c: char, read': nat)
    requires Reading(line, read, row, write, field_begin, mark, views) && read < read' <= |line|
    requires row' == row[write := c]
    requires ParseFrom(line, read, Open(field_begin, row, write), AllViewed(views, row))
          == ParseFrom(line, read', Append(Open(field_begin, row, write), c), AllViewed(views, row))
    ensures Reading(line, read', row', write + 1, field_begin, mark, views)
  {
    hide ParseFrom, AllViewed, ViewsEnd;
    assert row'[..mark] == row[..mark];
    ViewsKept(views, row, row', mark);
    if field_begin.Some? { assert row'[mark..write + 1] == row[mark..write] + [c]; }
  }

  /** The current field ends: null adds nothing to the buffer, any other field a closing zero. */
  lemma FieldCloses(row: seq<char>, write: nat, field_begin: Option<nat>, mark: nat, views: seq<View>)
    requires mark <= write < |row| && (field_begin.Some? ==> field_begin.value == mark) && ViewsEnd(views, row, mark)
    ensures field_begin.None? ==>
              ViewsEnd(views + [NullView], row, write) && AllViewed(views + [NullView], row) == AllViewed(views, row) + [Null]
    ensures field_begin.Some? ==>
              var v, row' := Range(mark, write - mark), row[write := '\0'];
              ViewsEnd(views + [v], row', write + 1) && AllViewed(views + [v], row') == AllViewed(views, row) + [Text(row[mark..write])]
  {
  }

  class StreamFrom {
    var m_finished: bool
    var m_row: array<char>
    var m_fields: seq<View>

    constructor ()
      ensures !m_finished && m_fields == []
    {
      m_finished, m_fields := false, [];
      m_row := new char[0];
    }

    /** Ends the current field; the rest of the buffer keeps what it holds. */
    method CloseField(write: nat, field_begin: Option<nat>) returns (next: nat)
      requires write < m_row.Length && (field_begin.Some? ==> field_begin.value <= write)
      modifies this`m_fields, m_row
      ensures field_begin.None? ==> m_fields == old(m_fields) + [NullView] && next == write && m_row[..] == old(m_row[..])
      ensures field_begin.Some? ==> m_fields == old(m_fields) + [Range(field_begin.value, write - field_begin.value)]
                                    && next == write + 1 && m_row[..] == old(m_row[..])[write := '\0']
    {
      next := write;
      if field_begin.None? {
        m_fields := m_fields + [NullView];
      } else {
        m_fields := m_fields + [Range(field_begin.value, write - field_begin.value)];
        m_row[next] := '\0';
        next := next + 1;
      }
    }

    /** The escape after a backslash: what it does to the buffer and the field, or the failure it throws. */
    method ReadEscape(c: char, write: nat, field_begin: Option<nat>) returns (failure: Option<Why>, next: nat, begin: Option<nat>)
      requires write < m_row.Length && (field_begin.Some? ==> field_begin.value <= write)
      modifies m_row
      ensures c == 'N' ==> m_row[..] == old(m_row[..]) && next == write && begin == None
                           && failure == if field_begin == Some(write) then None else Some(NullInNonemptyField)
      ensures c != 'N' ==> failure == None && next == write + 1 && begin == field_begin
                           && m_row[..] == old(m_row[..])[write := Unescape(c)]
    {
      failure, next, begin := None, write, field_begin;
      match c {
        case 'N' =>
          if field_begin != Some(write) { failure := Some(NullInNonemptyField); }
          begin := None;
        case 'b' => m_row[next] := BACKSPACE; next := next + 1;
        case 'f' => m_row[next] := FORM_FEED; next := next + 1;
        case 'n' => m_row[next] := '\n'; next := next + 1;
        case 'r' => m_row[next] := '\r'; next := next + 1;
        case 't' => m_row[next] := '\t'; next := next + 1;
        case 'v' => m_row[next] := VERTICAL_TAB; next := next + 1;
        case _ => m_row[next] := c; next := next + 1;
      }
    }

    /**
     * parse_line on the line read, None at the end of the data, with a single-byte scanner. A buffer of one byte more
     * than the line is enough, and the finished fields still read back at the end what the line says.
     */
    method ParseLine(raw: Option<string>) returns (failure: Option<Why>)
      modifies this
      ensures old(m_finished) ==> failure == None && unchanged(this)
      ensures !old(m_finished) ==>
        var line := if raw.Some? then raw.value else "";
        && m_finished == raw.None? && m_row.Length == |line| + 1
        && (failure.Some? ==> Parse(line) == Failed(failure.value))
        && (failure.None? ==> ViewsEnd(m_fields, m_row[..], m_row.Length) && Parse(line) == Row(AllViewed(m_fields, m_row[..])))
    {
      if m_finished { return None; }
      m_fields := [];
      var line := if raw.Some? then raw.value else "";
      if raw.None? { m_finished := true; }
      m_row := new char[|line| + 1];
      failure := ReadFields(line);
    }

    method ReadFields(line: string) returns (failure: Option<Why>)
      requires m_row.Length == |line| + 1 && m_fields == []
      modifies this`m_fields, m_row
      ensures failure.Some? ==> Parse(line) == Failed(failure.value)
      ensures failure.None? ==> ViewsEnd(m_fields, m_row[..], m_row.Length) && Parse(line) == Row(AllViewed(m_fields, m_row[..]))
    {
      var read: nat, write: nat, field_begin: Option<nat> := 0, 0, Some(0);
      ghost var mark: nat := 0;
      ReadingStarts(line, m_row[..]);
      while read < |line|
        invariant Reading(line, read, m_row[..], write, field_begin, mark, m_fields)
        decreases |line| - read
      {
        ghost var row, at := m_row[..], read;
        var c := line[read];
        read := read + 1;
        if c == '\t' {
          FieldCloses(row, write, field_begin, mark, m_fields);
          write := CloseField(write, field_begin);
          field_begin := Some(write);
          mark := write;
          assert m_row[..][write..write] == "";
        } else if c == '\\' {
          if read >= |line| { return Some(EndsInBackslash); }
          c := line[read];
          read := read + 1;
          var next;
          ghost var began := field_begin;
          assert row[write..write] == "";
          failure, next, field_begin := ReadEscape(c, write, field_begin);
          if failure.Some? { return; }
          if c != 'N' { ReadingWrites(line, at, row, write, began, mark, m_fields, m_row[..], Unescape(c), read); }
          write := next;
        } else {
          m_row[write] := c;
          ReadingWrites(line, at, row, write, field_begin, mark, m_fields, m_row[..], c, read);
          write := write + 1;
        }
      }
      FieldCloses(m_row[..], write, field_begin, mark, m_fields);
      write := CloseField(write, field_begin);
      return None;
    }
  }

  /** What a reader gets for a field: every character with an octal escape comes back as its three digits. */
  function Received(s: string): string {
    if s == "" then "" else (if Safe(s[0]) then [s[0]] else Octal(s[0])) + Received(s[1..])
  }

  function ReceivedField(f: Field): Field { if f.Null? then Null else Text(Received(f.text)) }

  function ReceivedRow(row: seq<Field>): seq<Field> {
    if row == [] then [] else [ReceivedField(row[0])] + ReceivedRow(row[1..])
  }

  predicate AllSafe(s: string) { forall i :: 0 <= i < |s| ==> Safe(s[i]) }

  lemma {:induction false} ReceivedIsSame(s: string)
    ensures |Received(s)| >= |s| && (Received(s) == s <==> AllSafe(s))
    decreases |s|
  {
    hide Octal, Safe;
    if s != "" {
      ReceivedIsSame(s[1..]);
      assert AllSafe(s) <==> Safe(s[0]) && AllSafe(s[1..]) by {
        if Safe(s[0]) && AllSafe(s[1..]) { forall i | 0 <= i < |s| ensures Safe(s[i]) { if i > 0 { assert s[i] == s[1..][i - 1]; } } }
      }
      if Safe(s[0]) { assert Received(s)[1..] == Received(s[1..]) && s == [s[0]] + s[1..]; }
    }
  }

  /** An escaped character is read as what its field receives for it. */
  lemma CharIsReceived(line: string, i: nat, c: char, text: string, done: seq<Field>)
    requires Occurs(line, i, EscapedChar(c))
    ensures var got := if Safe(c) then [c] else Octal(c);
            ParseFrom(line, i, Text(text), done) == ParseFrom(line, i + |EscapedChar(c)|, Text(text + got), done)
  {
    OccursAt(line, i, EscapedChar(c), 0);
    if |EscapedChar(c)| > 1 { OccursAt(line, i, EscapedChar(c), 1); }
    if !Safe(c) && c != '\\' { OctalIsReceived(line, i, c, text, done); }
  }

  lemma OctalIsReceived(line: string, i: nat, c: char, text: string, done: seq<Field>)
    requires Occurs(line, i, "\\" + Octal(c))
    ensures ParseFrom(line, i, Text(text), done) == ParseFrom(line, i + 4, Text(text + Octal(c)), done)
  {
    var e := "\\" + Octal(c);
    OccursAt(line, i, e, 0);
    OccursAt(line, i, e, 1);
    OccursAt(line, i, e, 2);
    OccursAt(line, i, e, 3);
    var o := Octal(c);
    assert e[1] == o[0] && e[2] == o[1] && e[3] == o[2];
    hide Octal;
    assert ParseFrom(line, i, Text(text), done) == ParseFrom(line, i + 2, Text(text + [o[0]]), done);
    assert ParseFrom(line, i + 2, Text(text + [o[0]]), done) == ParseFrom(line, i + 3, Text(text + [o[0]] + [o[1]]), done);
    assert text + [o[0]] + [o[1]] + [o[2]] == text + o;
  }

  lemma {:induction false} FieldIsReceived(line: string, i: nat, s: string, text: string, done: seq<Field>)
    requires Occurs(line, i, Escaped(s))
    ensures i + |Escaped(s)| <= |line|
    ensures ParseFrom(line, i, Text(text), done) == ParseFrom(line, i + |Escaped(s)|, Text(text + Received(s)), done)
    decreases |s|
  {
    hide ParseFrom, EscapedChar, Octal, Safe;
    if s == "" {
      assert text + "" == text;
    } else {
      var got := if Safe(s[0]) then [s[0]] else Octal(s[0]);
      OccursParts(line, i, EscapedChar(s[0]), Escaped(s[1..]));
      CharIsReceived(line, i, s[0], text, done);
      FieldIsReceived(line, i + |EscapedChar(s[0])|, s[1..], text + got, done);
      Assoc(text, got, Received(s[1..]));
    }
  }

  /** A field that stands at the end of the line or before a tab is read up to there. */
  lemma FieldTextIsReceived(line: string, i: nat, f: Field, done: seq<Field>)
    requires Occurs(line, i, BareText(f))
    ensures i + |BareText(f)| <= |line|
    ensures ParseFrom(line, i, Text(""), done) == ParseFrom(line, i + |BareText(f)|, ReceivedField(f), done)
  {
    match f {
      case Null =>
        OccursAt(line, i, "\\N", 0);
        OccursAt(line, i, "\\N", 1);
      case Text(s) =>
        FieldIsReceived(line, i, s, "", done);
        assert "" + Received(s) == Received(s);
    }
  }

  /** A field without its tab. */
  function BareText(f: Field): string { if f.Null? then "\\N" else Escaped(f.text) }

  /** The fields of a row with tabs between them. */
  function Joined(row: seq<Field>): string
    requires row != []
    decreases |row|
  {
    if |row| == 1 then BareText(row[0]) else BareText(row[0]) + ("\t" + Joined(row[1..]))
  }

  lemma {:induction false} LineIsJoined(row: seq<Field>)
    requires row != []
    ensures RowText(row) == Joined(row) + "\t" && Line(row) == Joined(row)
    decreases |row|
  {
    hide Escaped;
    assert FieldText(row[0]) == BareText(row[0]) + "\t";
    if |row| == 1 {
      assert row[1..] == [] && FieldText(row[0]) + "" == FieldText(row[0]);
    } else {
      LineIsJoined(row[1..]);
      Assoc(BareText(row[0]), "\t", Joined(row[1..]) + "\t");
      Assoc("\t", Joined(row[1..]), "\t");
      Assoc(BareText(row[0]), "\t" + Joined(row[1..]), "\t");
    }
    assert (Joined(row) + "\t")[..|Joined(row)|] == Joined(row);
  }

  lemma {:induction false} RowIsReceived(line: string, i: nat, row: seq<Field>, done: seq<Field>)
    requires row != [] && Occurs(line, i, Joined(row)) && i + |Joined(row)| == |line|
    ensures ParseFrom(line, i, Text(""), done) == Row(done + ReceivedRow(row))
    decreases |row|
  {
    hide BareText, ReceivedField;
    var f := ReceivedField(row[0]);
    if |row| == 1 {
      FieldTextIsReceived(line, i, row[0], done);
      assert row[1..] == [] && ReceivedRow(row) == [f];
    } else {
      OccursParts(line, i, BareText(row[0]), "\t" + Joined(row[1..]));
      FieldTextIsReceived(line, i, row[0], done);
      var k := i + |BareText(row[0])|;
      OccursAt(line, k, "\t" + Joined(row[1..]), 0);
      OccursParts(line, k, "\t", Joined(row[1..]));
      RowIsReceived(line, k + 1, row[1..], done + [f]);
      Assoc(done, [f], ReceivedRow(row[1..]));
    }
  }

  /** A row of at least one field, written and read back, arrives as what its fields are received as, nulls as nulls. */
  lemma WriteThenRead(row: seq<Field>)
    requires row != []
    ensures Parse(Line(row)) == Row(ReceivedRow(row))
  {
    LineIsJoined(row);
    var line := Line(row);
    assert line[0..0 + |Joined(row)|] == Joined(row);
    RowIsReceived(line, 0, row, []);
    assert [] + ReceivedRow(row) == ReceivedRow(row);
  }

  predicate SafeRow(row: seq<Field>) { forall k :: 0 <= k < |row| && row[k].Text? ==> AllSafe(row[k].text) }

  lemma {:induction false} ReceivedRowIsSame(row: seq<Field>)
    ensures ReceivedRow(row) == row <==> SafeRow(row)
    decreases |row|
  {
    hide Received, AllSafe;
    if row != [] {
      var rest := row[1..];
      ReceivedRowIsSame(rest);
      if row[0].Text? { ReceivedIsSame(row[0].text); }
      assert row == [row[0]] + rest;
      assert ReceivedRow(row) == row <==> ReceivedField(row[0]) == row[0] && ReceivedRow(rest) == rest by {
        if ReceivedRow(row) == row { assert ReceivedRow(row)[0] == row[0] && ReceivedRow(row)[1..] == rest; }
      }
      SafeRowParts(row);
    }
  }

  lemma SafeRowParts(row: seq<Field>)
    requires row != []
    ensures SafeRow(row) <==> (row[0].Text? ==> AllSafe(row[0].text)) && SafeRow(row[1..])
  {
  }

  /** The round trip: exactly the non-empty rows over the safe characters survive it. */
  lemma RoundTrip(row: seq<Field>)
    ensures Parse(Line(row)) == Row(row) <==> row != [] && SafeRow(row)
  {
    if row == [] {
      assert Parse("") == Row([] + [Text("")]);
    } else {
      WriteThenRead(row);
      ReceivedRowIsSame(row);
    }
  }

  // ---------------------------------------------------------------- the tables, character by character

  /** What the writer makes of each character; `a`, `b` and `d` are the octal digits of its code. */
  lemma EscapeTable(c: char, a: nat, b: nat, d: nat)
    requires a < 4 && b < 8 && d < 8 && c as int == 64 * a + 8 * b + d
    ensures EscapedChar('\U{08}') == "\\b" && EscapedChar('\U{0c}') == "\\f" && EscapedChar('\n') == "\\n" && EscapedChar('\r') == "\\r"
    ensures EscapedChar('\t') == "\\t" && EscapedChar('\U{0b}') == "\\v" && EscapedChar('\\') == "\\\\"
    ensures ' ' <= c <= '~' && c != '\\' ==> EscapedChar(c) == [c]
    ensures (c < ' ' || c > '~') && c !in "\U{08}\U{0c}\n\r\t\U{0b}" ==>
              EscapedChar(c) == ['\\', "01234567"[a], "01234567"[b], "01234567"[d]]
    ensures Octal(c) == ["01234567"[a], "01234567"[b], "01234567"[d]]
  {
    OctalDigits(c as int, a, b, d);
    DigitIs(a);
    DigitIs(b);
    DigitIs(d);
    hide NumberToDigit;
  }

  lemma OctalDigits(u: nat, a: nat, b: nat, d: nat)
    requires a < 4 && b < 8 && d < 8 && u == 64 * a + 8 * b + d
    ensures u / 64 % 8 == a && u / 8 % 8 == b && u % 8 == d
  {
  }

  lemma DigitIs(k: nat)
    requires k < 8
    ensures NumberToDigit(k) == "01234567"[k]
  {
  }

  /** What the reader makes of a character behind a backslash, and the characters that survive. */
  lemma UnescapeTable(c: char)
    ensures Unescape('b') == '\U{08}' && Unescape('f') == '\U{0c}' && Unescape('n') == '\n' && Unescape('r') == '\r'
    ensures Unescape('t') == '\t' && Unescape('v') == '\U{0b}'
    ensures c !in "bfnrtv" ==> Unescape(c) == c
    ensures Safe(c) <==> ' ' <= c <= '~' || c in "\U{08}\U{0c}\n\r\t\U{0b}"
  {
  }

  // ---------------------------------------------------------------- every line there is

  /** A character as it stands, or one behind a backslash. */
  datatype Item = Plain(c: char) | Escape(c: char)

  /** A field as it stands in a line: perhaps the null sequence, then characters. */
  datatype Cell = Cell(isNull: bool, items: seq<Item>)

  /** What comes behind the last cell: nothing, a lone backslash, or a null sequence that does not start its cell. */
  datatype Ending = Complete | Backslash | LateNull(rest: string)

  predicate LegalItems(items: seq<Item>) {
    forall i :: 0 <= i < |items| ==>
      if items[i].Plain? then items[i].c != '\t' && items[i].c != '\\' else items[i].c != 'N'
  }

  predicate LegalCells(cells: seq<Cell>) { cells != [] && forall i :: 0 <= i < |cells| ==> LegalItems(cells[i].items) }

  predicate LegalLine(cells: seq<Cell>, ending: Ending) {
    LegalCells(cells) && (ending.LateNull? ==> cells[|cells| - 1].isNull || cells[|cells| - 1].items != [])
  }

  function ItemText(t: Item): string { if t.Plain? then [t.c] else ['\\', t.c] }

  function ItemsText(items: seq<Item>): string {
    if items == [] then "" else ItemText(items[0]) + ItemsText(items[1..])
  }

  function CellText(cell: Cell): string { (if cell.isNull then "\\N" else "") + ItemsText(cell.items) }

  function EndingText(ending: Ending): string {
    match ending
    case Complete => ""
    case Backslash => "\\"
    case LateNull(rest) => "\\N" + rest
  }

  /** The cells with tabs between them, then the ending. */
  function LineText(cells: seq<Cell>, ending: Ending): string
    requires cells != []
    decreases |cells|
  {
    CellText(cells[0]) + if |cells| == 1 then EndingText(ending) else "\t" + LineText(cells[1..], ending)
  }

  function ItemsMeaning(items: seq<Item>): string {
    if items == [] then "" else [if items[0].Plain? then items[0].c else Unescape(items[0].c)] + ItemsMeaning(items[1..])
  }

  function CellMeaning(cell: Cell): Field { if cell.isNull then Null else Text(ItemsMeaning(cell.items)) }

  function LineMeaning(cells: seq<Cell>, ending: Ending): Parsed {
    match ending
    case Complete => Row(seq(|cells|, i requires 0 <= i < |cells| => CellMeaning(cells[i])))
    case Backslash => Failed(EndsInBackslash)
    case LateNull(_) => Failed(NullInNonemptyField)
  }

  function Grown(f: Field, s: string): Field { if f.Null? then Null else Text(f.text + s) }

  lemma {:induction false} ItemsRead(line: string, i: nat, items: seq<Item>, current: Field, done: seq<Field>)
    requires Occurs(line, i, ItemsText(items)) && LegalItems(items)
    ensures i + |ItemsText(items)| <= |line|
    ensures ParseFrom(line, i, current, done) == ParseFrom(line, i + |ItemsText(items)|, Grown(current, ItemsMeaning(items)), done)
    decreases |items|
  {
    hide ParseFrom, Occurs, Unescape, LegalItems;
    OccursFits(line, i, ItemsText(items));
    if items == [] {
      GrownByNothing(current);
    } else {
      LegalParts(items);
      OccursParts(line, i, ItemText(items[0]), ItemsText(items[1..]));
      ItemRead(line, i, items[0], current, done);
      var c := if items[0].Plain? then items[0].c else Unescape(items[0].c);
      ItemsRead(line, i + |ItemText(items[0])|, items[1..], Append(current, c), done);
      if current.Text? { Assoc(current.text, [c], ItemsMeaning(items[1..])); }
    }
  }

  lemma GrownByNothing(f: Field)
    ensures Grown(f, "") == f
  {
  }

  lemma LegalParts(items: seq<Item>)
    requires LegalItems(items) && items != []
    ensures LegalItems(items[..1]) && LegalItems(items[1..])
    ensures if items[0].Plain? then items[0].c != '\t' && items[0].c != '\\' else items[0].c != 'N'
  {
  }

  lemma ItemRead(line: string, i: nat, t: Item, current: Field, done: seq<Field>)
    requires Occurs(line, i, ItemText(t)) && if t.Plain? then t.c != '\t' && t.c != '\\' else t.c != 'N'
    ensures i + |ItemText(t)| <= |line|
    ensures ParseFrom(line, i, current, done)
         == ParseFrom(line, i + |ItemText(t)|, Append(current, if t.Plain? then t.c else Unescape(t.c)), done)
  {
    hide Unescape;
    OccursFits(line, i, ItemText(t));
    OccursAt(line, i, ItemText(t), 0);
    if t.Escape? { OccursAt(line, i, ItemText(t), 1); }
  }

  lemma CellRead(line: string, i: nat, cell: Cell, done: seq<Field>)
    requires Occurs(line, i, CellText(cell)) && LegalItems(cell.items)
    ensures i + |CellText(cell)| <= |line|
    ensures ParseFrom(line, i, Text(""), done) == ParseFrom(line, i + |CellText(cell)|, CellMeaning(cell), done)
  {
    hide Occurs, ItemsText, ItemsMeaning, LegalItems;
    var head := if cell.isNull then "\\N" else "";
    OccursParts(line, i, head, ItemsText(cell.items));
    if cell.isNull { NullRead(line, i, done); }
    hide ParseFrom;
    ItemsRead(line, i + |head|, cell.items, if cell.isNull then Null else Text(""), done);
    assert "" + ItemsMeaning(cell.items) == ItemsMeaning(cell.items);
  }

  lemma NullRead(line: string, i: nat, done: seq<Field>)
    requires Occurs(line, i, "\\N")
    ensures i + 2 <= |line| && ParseFrom(line, i, Text(""), done) == ParseFrom(line, i + 2, Null, done)
  {
    OccursAt(line, i, "\\N", 0);
    OccursAt(line, i, "\\N", 1);
  }

  lemma TabRead(line: string, i: nat, current: Field, done: seq<Field>)
    requires Occurs(line, i, "\t")
    ensures i + 1 <= |line| && ParseFrom(line, i, current, done) == ParseFrom(line, i + 1, Text(""), done + [current])
  {
    OccursAt(line, i, "\t", 0);
  }

  lemma EndingRead(line: string, i: nat, ending: Ending, current: Field, done: seq<Field>)
    requires Occurs(line, i, EndingText(ending)) && i + |EndingText(ending)| == |line| && (ending.LateNull? ==> current != Text(""))
    ensures ParseFrom(line, i, current, done) ==
            match ending
            case Complete => Row(done + [current])
            case Backslash => Failed(EndsInBackslash)
            case LateNull(_) => Failed(NullInNonemptyField)
  {
    if !ending.Complete? { OccursAt(line, i, EndingText(ending), 0); }
    if ending.LateNull? { OccursAt(line, i, EndingText(ending), 1); }
  }

  function Meanings(cells: seq<Cell>): seq<Field> {
    if cells == [] then [] else [CellMeaning(cells[0])] + Meanings(cells[1..])
  }

  lemma {:induction false} MeaningsAt(cells: seq<Cell>)
    ensures Meanings(cells) == seq(|cells|, i requires 0 <= i < |cells| => CellMeaning(cells[i]))
    decreases |cells|
  {
    if cells != [] { MeaningsAt(cells[1..]); }
  }

  lemma {:induction false} CellsRead(line: string, i: nat, cells: seq<Cell>, ending: Ending, done: seq<Field>)
    requires LegalLine(cells, ending) && Occurs(line, i, LineText(cells, ending)) && i + |LineText(cells, ending)| == |line|
    ensures ParseFrom(line, i, Text(""), done) ==
            match ending
            case Complete => Row(done + Meanings(cells))
            case Backslash => Failed(EndsInBackslash)
            case LateNull(_) => Failed(NullInNonemptyField)
    decreases |cells|
  {
    hide ParseFrom, Occurs, CellText, CellMeaning, EndingText, LegalItems;
    var rest := if |cells| == 1 then EndingText(ending) else "\t" + LineText(cells[1..], ending);
    var f, at := CellMeaning(cells[0]), i + |CellText(cells[0])|;
    OccursParts(line, i, CellText(cells[0]), rest);
    CellRead(line, i, cells[0], done);
    if |cells| == 1 {
      if ending.LateNull? { NotEmpty(cells[0]); }
      EndingRead(line, at, ending, f, done);
      assert cells[1..] == [];
    } else {
      OccursParts(line, at, "\t", LineText(cells[1..], ending));
      TabRead(line, at, f, done);
      CellsRead(line, at + 1, cells[1..], ending, done + [f]);
      Assoc(done, [f], Meanings(cells[1..]));
    }
  }

  lemma NotEmpty(cell: Cell)
    requires cell.isNull || cell.items != []
    ensures CellMeaning(cell) != Text("")
  {
    assert cell.items != [] ==> |ItemsMeaning(cell.items)| > 0;
  }

  /** Every line means what its parts mean: fields, or the failure that its ending is. */
  lemma LineRead(cells: seq<Cell>, ending: Ending)
    requires LegalLine(cells, ending)
    ensures Parse(LineText(cells, ending)) == LineMeaning(cells, ending)
  {
    hide ParseFrom, LineText, LegalItems, CellMeaning;
    var line := LineText(cells, ending);
    assert line[0..0 + |line|] == line;
    CellsRead(line, 0, cells, ending, []);
    MeaningsAt(cells);
    assert [] + Meanings(cells) == Meanings(cells);
  }

  /** A character before a line joins its first cell, if that is not null; before a null cell it makes that null sequence late. */
  lemma ItemJoins(t: Item, cells: seq<Cell>, ending: Ending) returns (cells': seq<Cell>, ending': Ending)
    requires LegalLine(cells, ending) && LegalItems([t])
    ensures LegalLine(cells', ending') && !cells'[0].isNull && LineText(cells', ending') == ItemText(t) + LineText(cells, ending)
  {
    hide ItemText, EndingText, CellText, ItemsText;
    var first := cells[0];
    if first.isNull {
      StartsNull(cells, ending);
      var tail := LineText(cells, ending)[2..];
      cells', ending' := [Cell(false, [t])], LateNull(tail);
      OneItem(t);
      LateText(cells'[0], tail);
    } else {
      var joined := Cell(false, [t] + first.items);
      cells', ending' := [joined] + cells[1..], ending;
      JoinsLegally(t, first.items);
      assert cells'[1..] == cells[1..];
      CellJoins(t, first, joined, if |cells| == 1 then EndingText(ending) else "\t" + LineText(cells[1..], ending));
    }
  }

  lemma JoinsLegally(t: Item, items: seq<Item>)
    requires LegalItems([t]) && LegalItems(items)
    ensures LegalItems([t] + items)
  {
    assert [t][0] == t;
  }

  lemma OneItem(t: Item)
    ensures CellText(Cell(false, [t])) == ItemText(t)
  {
    hide ItemText;
    assert [t][1..] == [];
    assert ItemsText([t]) == ItemText(t) + "";
    assert "" + ItemText(t) == ItemText(t);
  }

  lemma LateText(cell: Cell, tail: string)
    ensures LineText([cell], LateNull(tail)) == CellText(cell) + ("\\N" + tail)
  {
  }

  lemma CellJoins(t: Item, first: Cell, joined: Cell, rest: string)
    requires !first.isNull && joined == Cell(false, [t] + first.items)
    ensures CellText(joined) + rest == ItemText(t) + (CellText(first) + rest)
  {
    hide ItemText;
    assert joined.items[1..] == first.items;
    assert CellText(joined) == ItemText(t) + CellText(first);
    Assoc(ItemText(t), CellText(first), rest);
  }

  lemma EmptyCell(ending: Ending)
    requires !ending.LateNull?
    ensures LegalLine([Cell(false, [])], ending) && LineText([Cell(false, [])], ending) == EndingText(ending)
  {
    assert CellText(Cell(false, [])) == "";
  }

  lemma TabJoins(cells: seq<Cell>, ending: Ending)
    requires LegalLine(cells, ending)
    ensures LegalLine([Cell(false, [])] + cells, ending) && LineText([Cell(false, [])] + cells, ending) == "\t" + LineText(cells, ending)
  {
    hide LegalItems;
    var all := [Cell(false, [])] + cells;
    NoItems();
    assert all[1..] == cells && CellText(all[0]) == "";
  }

  /** Every line can be taken apart, so that there are no others. */
  lemma {:induction false} TakenApart(line: string) returns (cells: seq<Cell>, ending: Ending)
    ensures LegalLine(cells, ending) && LineText(cells, ending) == line
    decreases |line|
  {
    hide LineText, CellText, LegalItems, ItemsText;
    if |line| <= 1 && (line == "" || line == "\\") {
      cells, ending := [Cell(false, [])], if line == "" then Complete else Backslash;
      EmptyCell(ending);
    } else {
      var k := if line[0] == '\\' then 2 else 1;
      cells, ending := TakenApart(line[k..]);
      assert line == line[..k] + line[k..];
      if line[0] == '\t' {
        TabJoins(cells, ending);
        cells := [Cell(false, [])] + cells;
        assert line[..1] == "\t";
      } else if line[0] != '\\' || line[1] != 'N' {
        var t := if k == 1 then Plain(line[0]) else Escape(line[1]);
        OneLegal(t);
        assert line[..k] == ItemText(t);
        cells, ending := ItemJoins(t, cells, ending);
      } else {
        assert line[..2] == "\\N";
        cells, ending := NullJoins(cells, ending);
      }
    }
  }

  lemma OneLegal(t: Item)
    requires if t.Plain? then t.c != '\t' && t.c != '\\' else t.c != 'N'
    ensures LegalItems([t])
  {
  }

  lemma NullJoins(cells: seq<Cell>, ending: Ending) returns (cells': seq<Cell>, ending': Ending)
    requires LegalLine(cells, ending)
    ensures LegalLine(cells', ending') && LineText(cells', ending') == "\\N" + LineText(cells, ending)
  {
    hide CellText, EndingText, LegalItems;
    var first := cells[0];
    if first.isNull {
      StartsNull(cells, ending);
      var tail := LineText(cells, ending)[2..];
      cells', ending' := [Cell(true, [])], LateNull(tail);
      NoItems();
      NullText(Cell(true, []));
      LateText(cells'[0], tail);
    } else {
      cells', ending' := [Cell(true, first.items)] + cells[1..], ending;
      assert cells'[1..] == cells[1..];
      NullText(Cell(true, first.items));
      Assoc("\\N", CellText(first), if |cells| == 1 then EndingText(ending) else "\t" + LineText(cells[1..], ending));
    }
  }

  lemma NoItems()
    ensures LegalItems([])
  {
  }

  lemma NullText(cell: Cell)
    requires cell.isNull
    ensures CellText(cell) == "\\N" + CellText(Cell(false, cell.items))
    ensures cell.items == [] ==> CellText(cell) == "\\N"
  {
    assert "" + ItemsText(cell.items) == ItemsText(cell.items);
  }

  lemma StartsNull(cells: seq<Cell>, ending: Ending)
    requires cells != [] && cells[0].isNull
    ensures |LineText(cells, ending)| >= 2 && LineText(cells, ending) == "\\N" + LineText(cells, ending)[2..]
  {
    hide EndingText, ItemsText;
    assert CellText(cells[0])[..2] == "\\N";
    var line := LineText(cells, ending);
    assert line == line[..2] + line[2..];
  }

  /** A line reads as these fields, or this failure, if and only if that is what the parts of some taking apart mean. */
  lemma ParsesExactly(line: string, parsed: Parsed)
    ensures Parse(line) == parsed <==>
            exists cells, ending :: LegalLine(cells, ending) && LineText(cells, ending) == line && LineMeaning(cells, ending) == parsed
  {
    hide ParseFrom, LegalItems, LineText, LineMeaning;
    var cells, ending := TakenApart(line);
    LineRead(cells, ending);
    if cs, e :| LegalLine(cs, e) && LineText(cs, e) == line && LineMeaning(cs, e) == parsed {
      LineRead(cs, e);
    }
  }
}
