/**
 * sql_cursor: a client that tracks the position of a server-side cursor from row counts alone. The server holds n rows;
 * its cursor stands at 0 (before the first row), on a row 1..n, or at n + 1 (after the last row).
 */
module SqlCursor {
  import opened Basics

  /** cursor_base::all() and backward_all(): the strides that mean "everything", as the code computes them from int. */
  const ALL: int := 0x7fff_ffff - 1
  const BACKWARD_ALL: int := -0x8000_0000 + 1

  /** The argument of FETCH or MOVE. */
  datatype Stride = Rows(count: int) | All | BackwardAll

  function StrideString(n: int): Stride {
    if n >= ALL then All else if n <= BACKWARD_ALL then BackwardAll else Rows(n)
  }

  predicate Forward(s: Stride) { s.All? || (s.Rows? && s.count > 0) }

  function Abs(a: int): nat { if a < 0 then -a else a }

  /** Where the server's cursor lands: one past the rows if it runs short. */
  function Land(n: nat, p: nat, s: Stride): (p': nat)
    requires p <= n + 1
    ensures p' <= n + 1
  {
    match s
    case Rows(k) => if k > 0 then Min(p + k, n + 1) else Max(p + k, 0)
    case All => n + 1
    case BackwardAll => 0
  }

  /** The rows passed on the way, in the order they are passed. */
  function Passed<T>(rows: seq<T>, p: nat, s: Stride): seq<T>
    requires p <= |rows| + 1
  {
    var n, p' := |rows|, Land(|rows|, p, s);
    if Forward(s) then (if p' >= p then rows[Min(p, n)..Min(p', n)] else [])
    else (if p' <= p then Reversed(rows[Max(p', 1) - 1..Max(p, 1) - 1]) else [])
  }

  function Reversed<T>(s: seq<T>): (r: seq<T>)
    ensures |r| == |s| && forall i :: 0 <= i < |s| ==> r[i] == s[|s| - 1 - i]
  {
    if s == [] then [] else Reversed(s[1..]) + [s[0]]
  }

  /** How many rows are passed. */
  function PassedCount(n: nat, p: nat, s: Stride): nat
    requires p <= n + 1
  {
    var p' := Land(n, p, s);
    if Forward(s) then Min(p', n) - Min(p, n) else Max(p, 1) - Max(p', 1)
  }

  lemma SliceAt<T>(rows: seq<T>, lo: nat, hi: nat, i: nat)
    requires lo <= hi <= |rows|
    ensures |rows[lo..hi]| == hi - lo && (i < hi - lo ==> rows[lo..hi][i] == rows[lo + i])
  {
  }

  /** Forwards from position p come the rows at positions p + 1, p + 2, ...: as many as asked for and there. */
  lemma PassedForwards<T>(rows: seq<T>, p: nat, k: nat, i: nat)
    requires p <= |rows| + 1 && k > 0
    ensures var n, passed := |rows|, Passed(rows, p, Rows(k));
            && Land(n, p, Rows(k)) == (if p + k > n + 1 then n + 1 else p + k)
            && |passed| == (if p > n then 0 else if p + k > n then n - p else k)
            && (i < |passed| ==> passed[i] == rows[p + i])
    ensures Land(|rows|, p, All) == |rows| + 1 && Passed(rows, p, All) == Passed(rows, p, Rows(|rows| + 1))
  {
    hide Reversed;
    var n := |rows|;
    SliceAt(rows, Min(p, n), Min(Land(n, p, Rows(k)), n), i);
  }

  /** Backwards from position p come those at positions p - 1, p - 2, .... */
  lemma PassedBackwards<T>(rows: seq<T>, p: nat, k: nat, i: nat)
    requires p <= |rows| + 1 && k > 0
    ensures var n, passed := |rows|, Passed(rows, p, Rows(0 - k));
            && Land(n, p, Rows(0 - k)) == (if p < k then 0 else p - k)
            && |passed| == (if p == 0 then 0 else if p - k < 1 then p - 1 else k)
            && (i < |passed| ==> passed[i] == rows[p - 2 - i])
    ensures Land(|rows|, p, BackwardAll) == 0 && Passed(rows, p, BackwardAll) == Passed(rows, p, Rows(0 - |rows| - 1))
  {
    hide Reversed;
    ReversedPart(rows, Max(Land(|rows|, p, Rows(0 - k)), 1) - 1, Max(p, 1) - 1, i);
  }

  /** The two strides that mean everything. */
  lemma StridesAre(n: int)
    ensures StrideString(n) == if n >= 0x7fff_fffe then All else if n <= -0x7fff_ffff then BackwardAll else Rows(n)
  {
  }

  predicate UselessTrail(c: char) { c in [' ', '\t', '\n', '\U{0b}', '\U{0c}', '\r', ';'] }

  /** find_query_end for a single-byte encoding: the end of the query without trailing semicolons and whitespace. */
  method FindQueryEnd(query: string) returns (end: nat)
    ensures end <= |query| && forall i :: end <= i < |query| ==> query[i] in " \t\n\U{0b}\U{0c}\r;"
    ensures end > 0 ==> query[end - 1] !in " \t\n\U{0b}\U{0c}\r;"
  {
    end := |query|;
    while end > 0 && UselessTrail(query[end - 1])
      invariant end <= |query| && forall i :: end <= i < |query| ==> UselessTrail(query[i])
    {
      end := end - 1;
    }
    forall c: char ensures UselessTrail(c) <==> c in " \t\n\U{0b}\U{0c}\r;" { TrailIs(c); }
  }

  lemma TrailIs(c: char)
    ensures UselessTrail(c) <==> c in " \t\n\U{0b}\U{0c}\r;"
  {
  }

  class Server<T> {
    const rows: seq<T>
    var pos: nat

    ghost predicate Valid()
      reads this
    {
      pos <= |rows| + 1
    }

    constructor (rows: seq<T>, pos: nat)
      requires pos <= |rows| + 1
      ensures this.rows == rows && this.pos == pos
    {
      this.rows, this.pos := rows, pos;
    }

    method Fetch(s: Stride) returns (r: seq<T>)
      requires Valid()
      modifies this
      ensures Valid() && pos == Land(|rows|, old(pos), s) && r == Passed(rows, old(pos), s)
    {
      r := Passed(rows, pos, s);
      pos := Land(|rows|, pos, s);
    }

    method Move(s: Stride) returns (count: nat)
      requires Valid()
      modifies this
      ensures Valid() && pos == Land(|rows|, old(pos), s) && count == PassedCount(|rows|, old(pos), s)
    {
      count := PassedCount(|rows|, pos, s);
      pos := Land(|rows|, pos, s);
    }
  }

  /** What the client believes: at which end it stands, its position and the end position, -1 if unknown. */
  datatype Client = Client(atEnd: int, pos: int, endpos: int)

  /** adjust() returns a displacement or throws internal_error. */
  datatype Outcome = Displaced(displacement: int) | NegativeRows | LargerThanRequested | WrongBeginning | InconsistentEnd

  const OWNED := Client(-1, 0, -1)
  const ADOPTED := Client(0, -1, -1)

  /** The client after a call, and what the call returned or threw. */
  datatype Adjusted = Adjusted(client: Client, outcome: Outcome)

  function Adjust(c: Client, hoped: int, actual: int): Adjusted {
    if actual < 0 then Adjusted(c, NegativeRows)
    else if hoped == 0 then Adjusted(c, Displaced(0))
    else if actual > Abs(hoped) then Adjusted(c, LargerThanRequested)
    else if actual == Abs(hoped) then
      Adjusted(Client(0, if c.pos >= 0 then c.pos + hoped else c.pos, c.endpos), Displaced(hoped))
    else
      var direction := if hoped < 0 then -1 else 1;
      var moved := if c.atEnd != direction then actual + 1 else actual;
      if direction < 0 then
        if c.pos == -1 || c.pos == moved then Adjusted(Client(-1, 0, c.endpos), Displaced(-moved))
        else Adjusted(c, WrongBeginning)
      else
        var pos := if c.pos >= 0 then c.pos + moved else c.pos;
        if c.endpos >= 0 && pos != c.endpos then Adjusted(Client(1, pos, c.endpos), InconsistentEnd)
        else Adjusted(Client(1, pos, pos), Displaced(moved))
  }

  /** Each internal error, and when it is thrown: `moved` counts the step past the last row where one is made. */
  lemma AdjustThrows(c: Client, hoped: int, actual: int)
    ensures var outcome := Adjust(c, hoped, actual).outcome;
            var short := 0 <= actual && (actual < hoped || actual < -hoped);
            var moved := if (hoped > 0 && c.atEnd == 1) || (hoped < 0 && c.atEnd == -1) then actual else actual + 1;
            && (outcome == NegativeRows <==> actual < 0)
            && (outcome == LargerThanRequested <==> hoped != 0 && actual > hoped && actual > -hoped && actual >= 0)
            && (outcome == WrongBeginning <==> short && hoped < 0 && c.pos != -1 && c.pos != moved)
            && (outcome == InconsistentEnd <==> short && hoped > 0 && c.endpos >= 0 && c.endpos != (if c.pos >= 0 then c.pos + moved else c.pos))
            && (outcome.Displaced? ==>
                  outcome.displacement == if hoped == 0 then 0 else if !short then hoped else if hoped > 0 then moved else -moved)
  {
  }

  class SqlCursor<T> {
    const m_home: Server<T>
    var m_at_end: int
    var m_pos: int
    var m_endpos: int

    ghost function Belief(): Client
      reads this
    {
      Client(m_at_end, m_pos, m_endpos)
    }

    /** The client and the server, together. */
    ghost function Situation(): Status
      reads this, m_home
    {
      Status(Belief(), m_home.pos)
    }

    /** DECLARE: a new cursor, before the first row. */
    constructor Owned(rows: seq<T>)
      ensures fresh(m_home) && m_home.Valid() && m_home.rows == rows && Situation() == Status(OWNED, 0)
    {
      m_home := new Server(rows, 0);
      m_at_end, m_pos, m_endpos := -1, 0, -1;
    }

    /** A cursor someone else opened and moved. */
    constructor Adopted(home: Server<T>)
      ensures m_home == home && Belief() == ADOPTED
    {
      m_home := home;
      m_at_end, m_pos, m_endpos := 0, -1, -1;
    }

    method AdjustPosition(hoped: int, rows: int) returns (outcome: Outcome)
      modifies this
      ensures Adjusted(Belief(), outcome) == Adjust(old(Belief()), hoped, rows)
    {
      var actual := rows;
      if actual < 0 { return NegativeRows; }
      if hoped == 0 { return Displaced(0); }
      var direction := if hoped < 0 then -1 else 1;
      var hit_end := false;
      if actual != Abs(hoped) {
        if actual > Abs(hoped) { return LargerThanRequested; }
        if m_at_end != direction { actual := actual + 1; }
        if direction > 0 {
          hit_end := true;
        } else if m_pos == -1 {
          m_pos := actual;
        } else if m_pos != actual {
          return WrongBeginning;
        }
        m_at_end := direction;
      } else {
        m_at_end := 0;
      }
      if m_pos >= 0 { m_pos := m_pos + direction * actual; }
      if hit_end {
        if m_endpos >= 0 && m_pos != m_endpos { return InconsistentEnd; }
        m_endpos := m_pos;
      }
      return Displaced(direction * actual);
    }

    method Fetch(rows: int) returns (r: seq<T>, outcome: Outcome)
      requires m_home.Valid()
      modifies this, m_home
      ensures m_home.Valid() && Called(Situation(), outcome) == Step(|m_home.rows|, old(Situation()), rows)
      ensures r == if rows == 0 then [] else Passed(m_home.rows, old(m_home.pos), StrideString(rows))
    {
      if rows == 0 { return [], Displaced(0); }
      PassedLength(m_home.rows, m_home.pos, StrideString(rows));
      r := m_home.Fetch(StrideString(rows));
      outcome := AdjustPosition(rows, |r|);
    }

    method Move(rows: int) returns (count: nat, outcome: Outcome)
      requires m_home.Valid()
      modifies this, m_home
      ensures m_home.Valid() && Called(Situation(), outcome) == Step(|m_home.rows|, old(Situation()), rows)
      ensures count == if rows == 0 then 0 else PassedCount(|m_home.rows|, old(m_home.pos), StrideString(rows))
    {
      if rows == 0 { return 0, Displaced(0); }
      count := m_home.Move(StrideString(rows));
      outcome := AdjustPosition(rows, count);
    }
  }

  lemma PassedLength<T>(rows: seq<T>, p: nat, s: Stride)
    requires p <= |rows| + 1 && s != Rows(0)
    ensures |Passed(rows, p, s)| == PassedCount(|rows|, p, s)
  {
  }

  datatype Status = Status(client: Client, server: nat)

  datatype Called = Called(status: Status, outcome: Outcome)

  /** One fetch or move, on client and server. */
  function Step(n: nat, st: Status, rows: int): (c: Called)
    requires st.server <= n + 1
    ensures c.status.server <= n + 1
  {
    if rows == 0 then Called(st, Displaced(0))
    else
      var s := StrideString(rows);
      var a := Adjust(st.client, rows, PassedCount(n, st.server, s));
      Called(Status(a.client, Land(n, st.server, s)), a.outcome)
  }

  /**
   * The client's position is unknown or right; its end flag says -1 or 1 only at that end, and does say so once the
   * position is known; its end position is unknown or n + 1.
   */
  predicate Tracks(n: nat, st: Status) {
    var c := st.client;
    && st.server <= n + 1 && (c.pos == -1 || c.pos == st.server)
    && (c.atEnd == 0 || (c.atEnd == -1 && st.server == 0) || (c.atEnd == 1 && st.server == n + 1))
    && (c.pos >= 0 ==> (c.atEnd == 0 <==> 0 < st.server <= n))
    && (c.endpos == -1 || (c.endpos == n + 1 && c.pos >= 0))
  }

  /** Every call on fewer than ALL rows tracks, throws nothing, and, from a known position, reports the true displacement. */
  lemma StepTracks(n: nat, st: Status, rows: int)
    requires n < ALL && Tracks(n, st)
    ensures var c := Step(n, st, rows);
            && Tracks(n, c.status) && c.outcome.Displaced?
            && (st.client.pos >= 0 ==> c.status.client.pos >= 0 && c.outcome.displacement == c.status.server - st.server)
            && (c.status.server == 0 && rows < 0 ==> c.status.client.pos == 0)
            && (st.client.pos >= 0 && c.status.server == n + 1 && rows > 0 ==> c.status.client.endpos == n + 1)
  {
    var s := StrideString(rows);
    match s {
      case All =>
      case BackwardAll =>
      case Rows(k) =>
    }
  }

  /** The status after a sequence of fetches and moves, whether or not some threw. */
  function After(n: nat, st: Status, calls: seq<int>): (r: Status)
    requires st.server <= n + 1
    ensures r.server <= n + 1
    decreases |calls|
  {
    if calls == [] then st else After(n, Step(n, st, calls[0]).status, calls[1..])
  }

  lemma {:induction false} AllCallsTrack(n: nat, st: Status, calls: seq<int>)
    requires n < ALL && Tracks(n, st)
    ensures Tracks(n, After(n, st, calls)) && (st.client.pos >= 0 ==> After(n, st, calls).client.pos >= 0)
    decreases |calls|
  {
    hide Step;
    if calls != [] {
      StepTracks(n, st, calls[0]);
      AllCallsTrack(n, Step(n, st, calls[0]).status, calls[1..]);
    }
  }

  /** The status of an owned cursor after some calls is right, and so is what one more call returns. */
  ghost predicate Reliable(n: nat, calls: seq<int>) {
    var st := After(n, Status(OWNED, 0), calls);
    && st.client.pos == st.server && (st.client.endpos == -1 || st.client.endpos == n + 1)
    && (st.client.atEnd == if st.server == 0 then -1 else if st.server == n + 1 then 1 else 0)
    && forall rows :: Step(n, st, rows).outcome == Displaced(Step(n, st, rows).status.server - st.server)
  }

  /** An owned cursor is reliable in every sequence of calls exactly when the result has fewer than ALL rows. */
  lemma OwnedIsReliable(n: nat)
    ensures (forall calls :: Reliable(n, calls)) <==> n < 0x7fff_fffe
  {
    if n < ALL {
      forall calls ensures Reliable(n, calls) {
        AllCallsTrack(n, Status(OWNED, 0), calls);
        var st := After(n, Status(OWNED, 0), calls);
        forall rows ensures Step(n, st, rows).outcome == Displaced(Step(n, st, rows).status.server - st.server) {
          StepTracks(n, st, rows);
        }
        hide After, Step;
      }
    } else {
      assert Step(n, Status(OWNED, 0), ALL).outcome != Displaced(n + 1);
      assert Step(n, Status(OWNED, 0), ALL).status.server == n + 1;
      assert After(n, Status(OWNED, 0), []) == Status(OWNED, 0);
      assert !Reliable(n, []);
    }
  }

  /** An adopted cursor is never wrong about its position; the first way back to the beginning makes it known. */
  lemma AdoptedLearns(n: nat, server: nat, calls: seq<int>)
    requires n < ALL && server <= n + 1
    ensures Tracks(n, After(n, Status(ADOPTED, server), calls))
    ensures var st := After(n, Status(ADOPTED, server), calls); Step(n, st, BACKWARD_ALL).status.client.pos == 0
  {
    AllCallsTrack(n, Status(ADOPTED, server), calls);
    StepTracks(n, After(n, Status(ADOPTED, server), calls), BACKWARD_ALL);
    hide Tracks, After;
  }

  function Clip(end: int, n: nat): int { if end < -1 then -1 else if end > n then n else end }

  /** The rows from `begin` up to, not including, `end`, ascending or descending; `end` is cut to -1..n. */
  function Wanted<T>(rows: seq<T>, begin: nat, end: int): seq<T>
    requires begin <= |rows|
  {
    var to := Clip(end, |rows|);
    if begin <= to then rows[begin..to] else Reversed(rows[to + 1..Min(begin + 1, |rows|)])
  }

  /** Rows begin, begin + 1, ... or begin, begin - 1, ..., all those there are before `end`; a descent from n starts at the last row. */
  lemma WantedAt<T>(rows: seq<T>, begin: nat, end: int, i: nat)
    requires begin <= |rows|
    ensures var wanted, n := Wanted(rows, begin, end), |rows|;
            var first := if begin == n then n - 1 else begin;
            && (begin <= end ==> (i < |wanted| <==> begin + i < end && begin + i < n) && (i < |wanted| ==> wanted[i] == rows[begin + i]))
            && (begin > end ==> (i < |wanted| <==> first - i > end && first - i >= 0) && (i < |wanted| ==> wanted[i] == rows[first - i]))
  {
    hide Wanted, Reversed;
    var n, to := |rows|, Clip(end, |rows|);
    WantedForms(rows, begin, end);
    ClipForms(begin, end, n);
    if begin <= to {
      SliceAt(rows, begin, to, i);
    } else if begin < n {
      ReversedPart(rows, to + 1, begin + 1, i);
    } else {
      ReversedPart(rows, to + 1, n, i);
    }
  }

  lemma ReversedPart<T>(rows: seq<T>, lo: nat, hi: nat, i: nat)
    requires lo <= hi <= |rows|
    ensures |Reversed(rows[lo..hi])| == hi - lo
    ensures i < hi - lo ==> Reversed(rows[lo..hi])[i] == rows[hi - 1 - i]
  {
  }

  /** Descending from the position after the last row to a row leaves that row in the result. */
  predicate Overshoots(n: nat, begin: int, end: int) { begin == n && 0 <= end < n }

  /** obtain_stateless_cursor_size: the number of rows, or -2 if the cursor does not know where it stands. */
  method ObtainStatelessCursorSize<T>(cur: SqlCursor<T>) returns (size: int)
    requires Tracks(|cur.m_home.rows|, cur.Situation()) && |cur.m_home.rows| < ALL && cur.m_home.Valid()
    modifies cur, cur.m_home
    ensures cur.m_home.Valid() && Tracks(|cur.m_home.rows|, cur.Situation())
    ensures size == if old(cur.m_pos) >= 0 then |cur.m_home.rows| else -2
  {
    if cur.m_endpos == -1 {
      StepTracks(|cur.m_home.rows|, cur.Situation(), ALL);
      var count, outcome := cur.Move(ALL);
    }
    size := cur.m_endpos - 1;
  }

  /** One call of the tracking client, from a known position. */
  lemma KnownStep(n: nat, st: Status, rows: int)
    requires n < ALL && Tracks(n, st) && st.client.pos >= 0
    ensures var c := Step(n, st, rows);
            && Tracks(n, c.status) && c.status.client.pos == c.status.server && st.client.pos == st.server
            && c.status.server == if rows >= 0 then Min(st.server + rows, n + 1) else Max(st.server + rows, 0)
  {
  }

  lemma PassedRows<T>(rows: seq<T>, p: nat, k: int)
    requires p <= |rows| + 1 && |rows| < ALL && k != 0
    ensures k > 0 && p + k <= |rows| ==> Passed(rows, p, StrideString(k)) == rows[p..p + k]
    ensures k < 0 && p + k >= 0 ==>
              Passed(rows, p, StrideString(k)) == Reversed(rows[Max(p + k, 1) - 1..Max(p, 1) - 1])
  {
  }

  /** A cursor that knows its position in a result of fewer than ALL rows. */
  ghost predicate Known<T>(cur: SqlCursor<T>)
    reads cur, cur.m_home
  {
    cur.m_home.Valid() && Tracks(|cur.m_home.rows|, cur.Situation()) && cur.m_pos >= 0 && |cur.m_home.rows| < ALL
  }

  /** Puts a tracking cursor on position `target`, or after the last row if there is no such position. */
  method Reposition<T>(cur: SqlCursor<T>, target: nat)
    requires Known(cur)
    modifies cur, cur.m_home
    ensures Known(cur) && cur.m_home.pos == Min(target, |cur.m_home.rows| + 1)
  {
    hide Step, Tracks;
    KnownStep(|cur.m_home.rows|, cur.Situation(), target - cur.m_pos);
    var count, outcome := cur.Move(target - cur.m_pos);
  }

  method FetchRows<T>(cur: SqlCursor<T>, rows: int) returns (r: seq<T>)
    requires Known(cur) && rows != 0
    modifies cur, cur.m_home
    ensures Known(cur)
    ensures cur.m_home.Valid() && old(cur.m_home.pos) <= |cur.m_home.rows| + 1
    ensures cur.m_home.pos == Land(|cur.m_home.rows|, old(cur.m_home.pos), StrideString(rows))
    ensures r == Passed(cur.m_home.rows, old(cur.m_home.pos), StrideString(rows))
  {
    StepLands(|cur.m_home.rows|, cur.Situation(), rows);
    hide Step, Tracks, Passed, Land;
    KnownStep(|cur.m_home.rows|, cur.Situation(), rows);
    var outcome;
    r, outcome := cur.Fetch(rows);
  }

  method MoveRows<T>(cur: SqlCursor<T>, rows: int) returns (count: nat)
    requires Known(cur) && rows != 0
    modifies cur, cur.m_home
    ensures Known(cur)
    ensures cur.m_home.Valid() && old(cur.m_home.pos) <= |cur.m_home.rows| + 1
    ensures cur.m_home.pos == Land(|cur.m_home.rows|, old(cur.m_home.pos), StrideString(rows))
    ensures count == |Passed(cur.m_home.rows, old(cur.m_home.pos), StrideString(rows))|
  {
    PassedLength(cur.m_home.rows, cur.m_home.pos, StrideString(rows));
    StepLands(|cur.m_home.rows|, cur.Situation(), rows);
    hide Step, Tracks, Passed, PassedCount, Land;
    KnownStep(|cur.m_home.rows|, cur.Situation(), rows);
    var outcome;
    count, outcome := cur.Move(rows);
  }

  lemma StepLands(n: nat, st: Status, rows: int)
    requires st.server <= n + 1 && rows != 0
    ensures Step(n, st, rows).status.server == Land(n, st.server, StrideString(rows))
  {
  }

  /**
   stateless_cursor_retrieve: None is its range_error.  The rows are the wanted ones exactly if it does not
   overshoot, and otherwise one more; where the cursor stood before makes no difference.
   */
  method StatelessCursorRetrieve<T>(cur: SqlCursor<T>, size: int, begin_pos: int, end_pos: int) returns (r: Option<seq<T>>)
    requires Known(cur) && size == |cur.m_home.rows| < ALL
    modifies cur, cur.m_home
    ensures Known(cur)
    ensures r == None <==> begin_pos < 0 || begin_pos > size
    ensures r.Some? ==> (r.value == Wanted(cur.m_home.rows, begin_pos, end_pos) <==> !(begin_pos == size && 0 <= end_pos < size))
    ensures var rows := cur.m_home.rows;
            r.Some? && begin_pos == size && 0 <= end_pos < size ==> r.value == Wanted(rows, begin_pos, end_pos) + [rows[end_pos]]
  {
    hide Known, Passed, Clip, Reversed, StrideString, Tracks, Step, Wanted, Land;
    if begin_pos < 0 || begin_pos > size { return None; }
    var end := Clip(end_pos, size);
    RetrievedRows(cur.m_home.rows, begin_pos, end_pos);
    if begin_pos == end { return Some([]); }
    var direction := if begin_pos < end then 1 else -1;
    Reposition(cur, begin_pos - direction + 1);
    var result := FetchRows(cur, end - begin_pos);
    return Some(result);
  }

  /** What the code fetches after it has moved. */
  lemma RetrievedRows<T>(rows: seq<T>, begin: nat, end: int)
    requires begin <= |rows| < ALL
    ensures var n, to := |rows|, Clip(end, |rows|);
            var got := Passed(rows, if begin < to then begin else Min(begin + 2, n + 1), StrideString(to - begin));
            && -1 <= to <= n
            && (begin == to ==> Wanted(rows, begin, end) == [] && !Overshoots(n, begin, end))
            && (begin != to && !Overshoots(n, begin, end) ==> got == Wanted(rows, begin, end))
            && (begin != to && Overshoots(n, begin, end) ==> got == Wanted(rows, begin, end) + [rows[end]])
  {
    hide *;
    var n, to := |rows|, Clip(end, |rows|);
    WantedForms(rows, begin, end);
    ClipForms(begin, end, n);
    if begin < to {
      Ascent(rows, begin, to);
    } else if begin > to {
      if begin < n { DescentFromRow(rows, begin, to); } else { DescentFromEnd(rows, to); }
    }
  }

  lemma WantedForms<T>(rows: seq<T>, begin: nat, end: int)
    requires begin <= |rows|
    ensures var n, to := |rows|, Clip(end, |rows|);
            && (begin <= to ==> Wanted(rows, begin, end) == rows[begin..to])
            && (begin == to ==> Wanted(rows, begin, end) == [])
            && (to < begin < n ==> Wanted(rows, begin, end) == Reversed(rows[to + 1..begin + 1]))
            && (to < begin == n ==> Wanted(rows, begin, end) == Reversed(rows[to + 1..n]))
  {
    hide Reversed;
  }

  lemma ClipForms(begin: nat, end: int, n: nat)
    requires begin <= n
    ensures -1 <= Clip(end, n) <= n && (0 <= Clip(end, n) < n ==> Clip(end, n) == end)
    ensures Overshoots(n, begin, end) <==> begin == n && 0 <= Clip(end, n) < n
    ensures Min(begin + 2, n + 1) == if begin < n then begin + 2 else n + 1
  {
  }

  lemma Ascent<T>(rows: seq<T>, begin: nat, to: nat)
    requires begin < to <= |rows| < ALL
    ensures Passed(rows, begin, StrideString(to - begin)) == rows[begin..to]
  {
    hide Passed, StrideString, Reversed;
    PassedRows(rows, begin, to - begin);
  }

  lemma DescentFromRow<T>(rows: seq<T>, begin: nat, to: int)
    requires begin < |rows| < ALL && -1 <= to < begin
    ensures Passed(rows, begin + 2, StrideString(to - begin)) == Reversed(rows[to + 1..begin + 1])
  {
    hide Passed, StrideString, Reversed;
    PassedRows(rows, begin + 2, to - begin);
  }

  lemma DescentFromEnd<T>(rows: seq<T>, to: int)
    requires |rows| < ALL && -1 <= to < |rows|
    ensures var got, descent := Passed(rows, |rows| + 1, StrideString(to - |rows|)), Reversed(rows[to + 1..|rows|]);
            got == if to >= 0 then descent + [rows[to]] else descent
  {
    hide Passed, StrideString, Reversed;
    PassedRows(rows, |rows| + 1, to - |rows|);
    if to >= 0 { ReversedFrom(rows, to); }
  }

  lemma ReversedFrom<T>(rows: seq<T>, from: nat)
    requires from < |rows|
    ensures Reversed(rows[from..|rows|]) == Reversed(rows[from + 1..|rows|]) + [rows[from]]
  {
  }
}
