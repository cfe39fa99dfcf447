/**
 * icursorstream: iterators over blocks of rows. They hang in an intrusive doubly linked list on the stream, which reads
 * the cursor forward once for all of them.
 */
module IcursorStream {
  import opened Basics
  import opened SqlCursor

  class IcursorIterator<T> {
    var m_here: seq<T>
    var m_pos: int
    var m_prev: IcursorIterator?<T>
    var m_next: IcursorIterator?<T>
    /** Where the block in m_here was read from. */
    ghost var m_start: nat

    constructor (pos: int)
      ensures m_pos == pos && m_here == [] && m_prev == null && m_next == null
    {
      m_here, m_pos, m_prev, m_next := [], pos, null, null;
      m_start := 0;
    }
  }

  /** Element `i`, or null outside the sequence. */
  ghost function At<T>(s: seq<IcursorIterator<T>>, i: int): IcursorIterator?<T> {
    if 0 <= i < |s| then s[i] else null
  }

  ghost predicate Distinct<T>(s: seq<IcursorIterator<T>>) {
    forall i, j :: 0 <= i < j < |s| ==> s[i] != s[j]
  }

  /** A multimap entry: an iterator under the position it had when it was entered. */
  datatype Todo<T> = Todo(key: int, item: IcursorIterator<T>)

  /** The first entry from `i` on whose key is greater. */
  function UpperBound<T>(todo: seq<Todo<T>>, key: int, i: nat): (k: nat)
    requires i <= |todo| && forall j :: 0 <= j < i ==> todo[j].key <= key
    ensures k <= |todo| && (forall j :: 0 <= j < k ==> todo[j].key <= key) && (k < |todo| ==> key < todo[k].key)
    decreases |todo| - i
  {
    if i < |todo| && todo[i].key <= key then UpperBound(todo, key, i + 1) else i
  }

  /** multimap::insert: after every entry whose key is not greater. */
  function Inserted<T>(todo: seq<Todo<T>>, e: Todo<T>): seq<Todo<T>> {
    var k := UpperBound(todo, e.key, 0);
    todo[..k] + [e] + todo[k..]
  }

  ghost predicate SortedTodo<T>(todo: seq<Todo<T>>) {
    forall i, j :: 0 <= i < j < |todo| ==> todo[i].key <= todo[j].key
  }

  lemma RealposBounds<T>(s: Icursorstream<T>)
    requires s.Positioned()
    ensures s.m_realpos >= 0 && s.m_stride >= 1
  {
  }

  /** The iterators to service: those positioned in from..topos. */
  ghost predicate Due<T>(x: IcursorIterator<T>, from: int, topos: int)
    reads x
  {
    from <= x.m_pos <= topos
  }

  /** Every due iterator's block starts at its own position. */
  ghost predicate Right<T>(nodes: seq<IcursorIterator<T>>, from: int, topos: int, n: nat)
    reads nodes
  {
    forall j :: 0 <= j < |nodes| && Due(nodes[j], from, topos) ==> nodes[j].m_start == Min(nodes[j].m_pos, n)
  }

  /** The rows of the block that starts at `p`. */
  function Block<T>(rows: seq<T>, p: nat, stride: nat): seq<T> {
    if p >= |rows| then [] else rows[p..Min(p + stride, |rows|)]
  }

  /** Rows p, p + 1, ..., as many as a stride, and fewer only at the end. */
  lemma BlockAt<T>(rows: seq<T>, p: nat, stride: nat, i: nat)
    ensures i < |Block(rows, p, stride)| <==> i < stride && p + i < |rows|
    ensures i < |Block(rows, p, stride)| ==> Block(rows, p, stride)[i] == rows[p + i]
  {
  }

  lemma OwnStarts<T>(nodes: seq<IcursorIterator<T>>, from: int, topos: int, rows: seq<T>, stride: nat)
    requires Right(nodes, from, topos, |rows|) && from >= 0
    ensures forall x :: x in nodes && Due(x, from, topos) ==>
              Block(rows, x.m_start, stride) == Block(rows, Max(x.m_pos, 0), stride)
  {
  }

  predicate IsMultiple(p: int, stride: int)
    requires stride >= 1
  {
    p % stride == 0
  }

  lemma MultipleAtLeast(q: int, stride: int)
    requires stride >= 1 && q >= 1
    ensures q * stride >= stride && -q * stride <= -stride
  {
  }

  lemma MultipleMod(q: int, stride: int)
    requires stride >= 1
    ensures (q * stride) % stride == 0
  {
    var p := (q * stride) / stride;
    assert (q - p) * stride == (q * stride) % stride;
    if q > p { MultipleAtLeast(q - p, stride); } else if q < p { MultipleAtLeast(p - q, stride); }
  }

  lemma MultiplesAdd(m: int, n: int, stride: int)
    requires stride >= 1 && IsMultiple(m, stride)
    ensures IsMultiple(m + n * stride, stride)
  {
    assert m == (m / stride) * stride;
    assert m + n * stride == (m / stride + n) * stride;
    MultipleMod(m / stride + n, stride);
  }

  lemma QuotientsApart(p: int, q: int, stride: int)
    requires stride >= 1
    ensures p < q ==> p * stride + stride <= q * stride
    ensures p >= q ==> p * stride >= q * stride
  {
    assert (q - p) * stride == q * stride - p * stride;
    if p < q { MultipleAtLeast(q - p, stride); }
  }

  lemma MultiplesApart(a: int, b: int, stride: int)
    requires stride >= 1 && IsMultiple(a, stride) && IsMultiple(b, stride) && a < b
    ensures a + stride <= b
  {
    QuotientsApart(a / stride, b / stride, stride);
    assert a == (a / stride) * stride && b == (b / stride) * stride;
  }

  /** Due positions that are not beyond the rows are equal or at least one block apart. */
  ghost predicate Spaced<T>(nodes: seq<IcursorIterator<T>>, from: int, topos: int, stride: int, n: nat)
    reads nodes
  {
    forall j, k | 0 <= j < |nodes| && 0 <= k < |nodes| && Due(nodes[j], from, topos) && Due(nodes[k], from, topos) ::
      nodes[j].m_pos < nodes[k].m_pos < n ==> nodes[j].m_pos + stride <= nodes[k].m_pos
  }

  lemma AlignedAreSpaced<T>(nodes: seq<IcursorIterator<T>>, from: int, topos: int, stride: int, n: nat)
    requires stride >= 1 && forall x :: x in nodes ==> IsMultiple(x.m_pos, stride)
    ensures Spaced(nodes, from, topos, stride, n)
  {
    forall j, k | 0 <= j < |nodes| && 0 <= k < |nodes| && nodes[j].m_pos < nodes[k].m_pos < n
      ensures nodes[j].m_pos + stride <= nodes[k].m_pos
    {
      MultiplesApart(nodes[j].m_pos, nodes[k].m_pos, stride);
    }
  }

  lemma NothingDue<T>(nodes: seq<IcursorIterator<T>>, from: int, topos: int, stride: int, n: nat)
    requires topos < from
    ensures Right(nodes, from, topos, n) && Spaced(nodes, from, topos, stride, n)
  {
  }

  ghost function Items<T>(todo: seq<Todo<T>>): set<IcursorIterator<T>> { set t | t in todo :: t.item }

  ghost predicate KeysArePositions<T>(todo: seq<Todo<T>>)
    reads Items(todo)
  {
    forall k :: 0 <= k < |todo| ==> todo[k].key == todo[k].item.m_pos
  }

  ghost predicate ListsOnly<T>(todo: seq<Todo<T>>, nodes: seq<IcursorIterator<T>>, from: int, topos: int)
    reads nodes
  {
    forall k :: 0 <= k < |todo| ==> todo[k].item in nodes && todo[k].key == todo[k].item.m_pos && from <= todo[k].key <= topos
  }

  ghost predicate ListsAll<T>(todo: seq<Todo<T>>, nodes: seq<IcursorIterator<T>>, from: int, topos: int)
    reads nodes
  {
    forall j :: 0 <= j < |nodes| && Due(nodes[j], from, topos) ==> Todo(nodes[j].m_pos, nodes[j]) in todo
  }

  /** `todo` lists, in the order of their positions, exactly the due iterators of `nodes`. */
  ghost predicate Lists<T>(todo: seq<Todo<T>>, nodes: seq<IcursorIterator<T>>, from: int, topos: int)
    reads nodes
  {
    SortedTodo(todo) && ListsOnly(todo, nodes, from, topos) && ListsAll(todo, nodes, from, topos)
  }

  ghost predicate Ahead<T>(todo: seq<Todo<T>>, i: nat, realpos: int) {
    forall k :: i <= k < |todo| ==> realpos <= todo[k].key
  }

  lemma ListsParts<T>(todo: seq<Todo<T>>, nodes: seq<IcursorIterator<T>>, from: int, topos: int)
    requires Lists(todo, nodes, from, topos)
    ensures SortedTodo(todo) && KeysArePositions(todo) && Ahead(todo, 0, from)
  {
  }

  /** Only due iterators are listed. */
  lemma ListedItems<T>(todo: seq<Todo<T>>, nodes: seq<IcursorIterator<T>>, from: int, topos: int)
    requires Lists(todo, nodes, from, topos)
    ensures forall x :: x in Items(todo) ==> x in nodes && Due(x, from, topos)
  {
  }

  /** The first |starts| entries hold the blocks that start there. */
  ghost predicate Filled<T>(todo: seq<Todo<T>>, starts: seq<nat>, rows: seq<T>, stride: int)
    requires |starts| <= |todo| && stride >= 0
    reads Items(todo)
  {
    forall k :: 0 <= k < |starts| ==>
      todo[k].item.m_here == Block(rows, starts[k], stride) && todo[k].item.m_start == starts[k]
  }

  lemma FilledStarts<T>(todo: seq<Todo<T>>, starts: seq<nat>, nodes: seq<IcursorIterator<T>>, from: int, topos: int, rows: seq<T>, stride: nat)
    requires Lists(todo, nodes, from, topos) && |starts| == |todo| && Filled(todo, starts, rows, stride)
    ensures forall x :: x in nodes && Due(x, from, topos) ==> x.m_here == Block(rows, x.m_start, stride)
  {
  }

  ghost predicate SpacedKeys<T>(todo: seq<Todo<T>>, stride: int, n: nat) {
    forall j, k | 0 <= j < |todo| && 0 <= k < |todo| :: todo[j].key < todo[k].key < n ==> todo[j].key + stride <= todo[k].key
  }

  ghost predicate RightStarts<T>(todo: seq<Todo<T>>, starts: seq<nat>, n: nat) {
    forall k :: 0 <= k < |starts| && k < |todo| ==> starts[k] == Min(todo[k].key, n)
  }

  ghost predicate NotEarly<T>(todo: seq<Todo<T>>, starts: seq<nat>, realpos: int, stride: int, n: nat)
    requires |starts| <= |todo|
  {
    forall k :: 0 <= k < |starts| ==> Min(todo[k].key, n) <= starts[k] <= n && Min(starts[k] + stride, n) <= realpos
  }

  ghost predicate Apart<T>(todo: seq<Todo<T>>, starts: seq<nat>, stride: int, n: nat)
    requires |starts| <= |todo|
  {
    forall j, k | 0 <= j < |starts| && 0 <= k < |starts| :: todo[j].key < todo[k].key ==> Min(starts[j] + stride, n) <= starts[k]
  }

  /** Where the blocks of the entries served so far started, against their keys and the cursor's row. */
  ghost predicate Plan<T>(todo: seq<Todo<T>>, starts: seq<nat>, realpos: int, stride: int, n: nat) {
    && |starts| <= |todo| && 0 <= realpos <= n && (0 < |starts| < |todo| ==> todo[|starts| - 1].key < todo[|starts|].key)
    && NotEarly(todo, starts, realpos, stride, n) && Apart(todo, starts, stride, n)
    && (SpacedKeys(todo, stride, n) ==> RightStarts(todo, starts, n) && Ahead(todo, |starts|, realpos))
  }

  lemma PlanStart<T>(todo: seq<Todo<T>>, realpos: int, stride: int, n: nat)
    requires 0 <= realpos <= n && Ahead(todo, 0, realpos)
    ensures Plan(todo, [], realpos, stride, n)
  {
  }

  lemma EarlierKeys<T>(todo: seq<Todo<T>>, i: nat)
    requires i < |todo| && SortedTodo(todo) && (0 < i ==> todo[i - 1].key < todo[i].key)
    ensures forall k :: 0 <= k < i ==> todo[k].key != todo[i].key
  {
  }

  /** The entries from |starts| to `next` form the next group of equal keys. */
  ghost predicate NextGroup<T>(todo: seq<Todo<T>>, i: nat, next: nat) {
    && i < next <= |todo| && SortedTodo(todo) && (0 < i ==> todo[i - 1].key < todo[i].key)
    && (forall k :: i <= k < next ==> todo[k].key == todo[i].key) && (next < |todo| ==> todo[i].key < todo[next].key)
  }

  lemma GroupBounds<T>(todo: seq<Todo<T>>, i: nat, next: nat)
    requires NextGroup(todo, i, next)
    ensures i < next <= |todo|
  {
  }

  /** What holds of the entries holds of the due iterators. */
  lemma ListedStarts<T>(todo: seq<Todo<T>>, starts: seq<nat>, nodes: seq<IcursorIterator<T>>, from: int, topos: int, rows: seq<T>, stride: nat)
    requires Lists(todo, nodes, from, topos) && |starts| == |todo| && Filled(todo, starts, rows, stride)
    ensures Right(nodes, from, topos, |rows|) <==> RightStarts(todo, starts, |rows|)
    ensures Spaced(nodes, from, topos, stride, |rows|) <==> SpacedKeys(todo, stride, |rows|)
  {
  }

  ghost predicate Linked<T>(s: seq<IcursorIterator<T>>)
    reads s
  {
    forall i :: 0 <= i < |s| ==> s[i].m_prev == At(s, i - 1) && s[i].m_next == At(s, i + 1)
  }

  lemma OnlyAt<T>(s: seq<IcursorIterator<T>>, k: int)
    requires Distinct(s)
    ensures 0 <= k < |s| ==> forall w :: 0 <= w < |s| ==> (s[w] == s[k] <==> w == k)
  {
  }

  twostate lemma LinksStay<T>(s: seq<IcursorIterator<T>>)
    requires old(Linked(s)) && forall x :: x in s ==> x.m_prev == old(x.m_prev) && x.m_next == old(x.m_next)
    ensures Linked(s)
  {
  }

  lemma WithoutAt<T>(s: seq<IcursorIterator<T>>, k: nat, j: int)
    requires k < |s|
    ensures |Without(s, k)| == |s| - 1
    ensures 0 <= j < |s| - 1 ==> Without(s, k)[j] == s[if j < k then j else j + 1]
    ensures At(Without(s, k), j) == At(s, if j < k then j else j + 1)
  {
  }

  lemma Relinked<T>(was: seq<IcursorIterator<T>>, k: nat)
    requires k < |was|
    requires forall w :: 0 <= w < |was| && w != k ==> was[w].m_prev == At(was, if w == k + 1 then k - 1 else w - 1)
    requires forall w :: 0 <= w < |was| && w != k ==> was[w].m_next == At(was, if w == k - 1 then k + 1 else w + 1)
    ensures Linked(Without(was, k)) && At(Without(was, k), 0) == At(was, if k == 0 then 1 else 0)
  {
    hide Without, At;
    var s := Without(was, k);
    WithoutAt(was, k, 0);
    forall j | 0 <= j < |s| ensures s[j].m_prev == At(s, j - 1) && s[j].m_next == At(s, j + 1) {
      WithoutAt(was, k, j - 1);
      WithoutAt(was, k, j);
      WithoutAt(was, k, j + 1);
    }
  }

  lemma ListsOnlyStep<T>(todo: seq<Todo<T>>, nodes: seq<IcursorIterator<T>>, j: nat, from: int, topos: int)
    requires j < |nodes| && ListsOnly(todo, nodes[..j], from, topos)
    ensures ListsOnly(todo, nodes[..j + 1], from, topos)
    ensures Due(nodes[j], from, topos) ==> ListsOnly(Inserted(todo, Todo(nodes[j].m_pos, nodes[j])), nodes[..j + 1], from, topos)
  {
  }

  lemma ListsAllStep<T>(todo: seq<Todo<T>>, nodes: seq<IcursorIterator<T>>, j: nat, from: int, topos: int)
    requires j < |nodes| && ListsAll(todo, nodes[..j], from, topos)
    ensures Due(nodes[j], from, topos) ==> ListsAll(Inserted(todo, Todo(nodes[j].m_pos, nodes[j])), nodes[..j + 1], from, topos)
    ensures !Due(nodes[j], from, topos) ==> ListsAll(todo, nodes[..j + 1], from, topos)
  {
  }

  lemma InsertedContents<T>(todo: seq<Todo<T>>, e: Todo<T>)
    ensures SortedTodo(todo) ==> SortedTodo(Inserted(todo, e))
    ensures e in Inserted(todo, e) && forall t {:trigger t in todo} {:trigger t in Inserted(todo, e)} :: t in todo ==> t in Inserted(todo, e)
    ensures forall k :: 0 <= k < |Inserted(todo, e)| && Inserted(todo, e)[k] != e ==> Inserted(todo, e)[k] in todo
  {
  }

  /** One more node is looked at. */
  lemma ListsStep<T>(todo: seq<Todo<T>>, nodes: seq<IcursorIterator<T>>, j: nat, from: int, topos: int)
    requires j < |nodes| && Lists(todo, nodes[..j], from, topos)
    ensures Lists(if Due(nodes[j], from, topos) then Inserted(todo, Todo(nodes[j].m_pos, nodes[j])) else todo, nodes[..j + 1], from, topos)
  {
    InsertedContents(todo, Todo(nodes[j].m_pos, nodes[j]));
    hide Inserted, SortedTodo, ListsOnly, ListsAll;
    ListsOnlyStep(todo, nodes, j, from, topos);
    ListsAllStep(todo, nodes, j, from, topos);
  }

  ghost function Extended(starts: seq<nat>, next: nat, start: nat): (r: seq<nat>)
    requires |starts| <= next
    ensures |r| == next && forall k :: 0 <= k < next ==> r[k] == if k < |starts| then starts[k] else start
  {
    starts + seq(next - |starts|, _ => start)
  }

  ghost function StartOf(key: int, realpos: int, n: nat): int { if key > realpos then Min(key, n) else realpos }

  lemma NotEarlyStep<T>(todo: seq<Todo<T>>, starts: seq<nat>, realpos: int, stride: int, n: nat, next: nat, start: nat)
    requires NextGroup(todo, |starts|, next) && 0 <= realpos <= n && stride >= 1 && NotEarly(todo, starts, realpos, stride, n)
    requires start == StartOf(todo[|starts|].key, realpos, n)
    ensures NotEarly(todo, Extended(starts, next, start), Min(start + stride, n), stride, n)
  {
  }

  lemma ApartStep<T>(todo: seq<Todo<T>>, starts: seq<nat>, realpos: int, stride: int, n: nat, next: nat, start: nat)
    requires NextGroup(todo, |starts|, next) && 0 <= realpos <= n && stride >= 1
    requires NotEarly(todo, starts, realpos, stride, n) && Apart(todo, starts, stride, n)
    requires start == StartOf(todo[|starts|].key, realpos, n)
    ensures Apart(todo, Extended(starts, next, start), stride, n)
  {
  }

  lemma RightStep<T>(todo: seq<Todo<T>>, starts: seq<nat>, realpos: int, stride: int, n: nat, next: nat, start: nat)
    requires NextGroup(todo, |starts|, next) && 0 <= realpos <= n && stride >= 1 && SpacedKeys(todo, stride, n)
    requires RightStarts(todo, starts, n) && Ahead(todo, |starts|, realpos)
    requires start == StartOf(todo[|starts|].key, realpos, n)
    ensures RightStarts(todo, Extended(starts, next, start), n) && Ahead(todo, next, Min(start + stride, n))
  {
  }

  /** One more group is served, from where the cursor stands by then. */
  lemma PlanStep<T>(todo: seq<Todo<T>>, starts: seq<nat>, realpos: int, stride: int, n: nat, next: nat, start: nat)
    requires Plan(todo, starts, realpos, stride, n) && stride >= 1 && NextGroup(todo, |starts|, next)
    requires start == StartOf(todo[|starts|].key, realpos, n)
    ensures Plan(todo, Extended(starts, next, start), Min(start + stride, n), stride, n)
  {
    hide NotEarly, Apart, SpacedKeys, RightStarts, Ahead, Extended;
    NotEarlyStep(todo, starts, realpos, stride, n, next, start);
    ApartStep(todo, starts, realpos, stride, n, next, start);
    if SpacedKeys(todo, stride, n) { RightStep(todo, starts, realpos, stride, n, next, start); }
  }

  /** Once everything is served, the starts are right exactly if the keys are spaced. */
  lemma PlanDone<T>(todo: seq<Todo<T>>, starts: seq<nat>, realpos: int, stride: int, n: nat)
    requires Plan(todo, starts, realpos, stride, n) && |starts| == |todo|
    ensures RightStarts(todo, starts, n) <==> SpacedKeys(todo, stride, n)
  {
  }

  lemma WithoutIsDistinct<T>(s: seq<IcursorIterator<T>>, k: nat)
    requires k < |s| && Distinct(s)
    ensures Distinct(Without(s, k)) && s[k] !in Without(s, k)
  {
  }

  /** Going forward from position p passes what is left of the next `k` rows. */
  lemma ForwardRows<T>(rows: seq<T>, p: nat, k: int)
    requires p <= |rows| + 1 && |rows| < ALL && k > 0
    ensures Passed(rows, p, StrideString(k)) == Block(rows, Min(p, |rows|), k)
    ensures Min(Land(|rows|, p, StrideString(k)), |rows|) == Min(Min(p, |rows|) + k, |rows|)
    ensures Land(|rows|, p, StrideString(k)) >= p
  {
  }

  class Icursorstream<T> {
    const m_cur: SqlCursor<T>
    var m_stride: int
    var m_realpos: int
    var m_reqpos: int
    var m_iterators: IcursorIterator?<T>
    var m_done: bool
    ghost var nodes: seq<IcursorIterator<T>>

    /** The list runs through `nodes`, once each, in both directions. */
    ghost predicate WellLinked()
      reads this, nodes
    {
      Distinct(nodes) && m_iterators == At(nodes, 0) && Linked(nodes)
    }

    /** A stream on a fresh cursor of its own; a stride below 1 throws, and there is no stream. */
    constructor (rows: seq<T>, sstride: int)
      requires sstride >= 1
      ensures fresh(m_cur) && fresh(m_cur.m_home) && m_cur.m_home.rows == rows
      ensures WellLinked() && nodes == [] && m_stride == sstride && m_reqpos == 0 && m_realpos == 0 && !m_done
      ensures |rows| < ALL ==> Positioned()
    {
      m_cur := new SqlCursor<T>.Owned(rows);
      m_stride, m_realpos, m_reqpos, m_iterators, m_done := sstride, 0, 0, null, false;
      nodes := [];
    }

    ghost predicate Positioned()
      reads this, m_cur, m_cur.m_home
    {
      Known(m_cur) && m_realpos == Min(m_cur.m_home.pos, |m_cur.m_home.rows|) && m_stride >= 1
    }

    /** set_stride: false is its argument_error. */
    method SetStride(stride: int) returns (ok: bool)
      modifies this`m_stride
      ensures ok == (stride >= 1) && m_stride == if ok then stride else old(m_stride)
      ensures (old(WellLinked()) ==> WellLinked()) && (old(Positioned()) ==> Positioned())
    {
      if stride < 1 { return false; }
      m_stride := stride;
      return true;
    }

    /** The next block of rows, from m_realpos. */
    method FetchBlock() returns (r: seq<T>)
      requires Positioned()
      modifies this`m_realpos, this`m_done, m_cur, m_cur.m_home
      ensures Positioned() && m_realpos == Min(old(m_realpos) + m_stride, |m_cur.m_home.rows|)
      ensures r == Block(m_cur.m_home.rows, old(m_realpos), m_stride)
      ensures m_done == (old(m_done) || r == []) && m_cur.m_home.pos >= old(m_cur.m_home.pos)
    {
      ForwardRows(m_cur.m_home.rows, m_cur.m_home.pos, m_stride);
      r := FetchRows(m_cur, m_stride);
      m_realpos := m_realpos + |r|;
      if r == [] { m_done := true; }
    }

    /** Skips rows. */
    method Ignore(n: int)
      requires Positioned() && n > 0
      modifies this`m_realpos, this`m_done, m_cur, m_cur.m_home
      ensures Positioned() && m_realpos == Min(old(m_realpos) + n, |m_cur.m_home.rows|)
      ensures m_done == (old(m_done) || old(m_realpos) + n > |m_cur.m_home.rows|) && m_cur.m_home.pos >= old(m_cur.m_home.pos)
    {
      ForwardRows(m_cur.m_home.rows, m_cur.m_home.pos, n);
      var offset := MoveRows(m_cur, n);
      m_realpos := m_realpos + offset;
      if offset < n { m_done := true; }
    }

    /** Requests n more blocks and tells where they will start. */
    method Forward(n: nat) returns (pos: int)
      modifies this`m_reqpos
      ensures pos == m_reqpos == old(m_reqpos) + n * m_stride
    {
      m_reqpos := m_reqpos + n * m_stride;
      return m_reqpos;
    }

    /** Inserts at the front. */
    method InsertIterator(i: IcursorIterator<T>)
      requires WellLinked() && i !in nodes && i.m_prev == null
      modifies this`m_iterators, this`nodes, i`m_next, nodes`m_prev
      ensures WellLinked() && nodes == [i] + old(nodes)
    {
      i.m_next := m_iterators;
      if m_iterators != null {
        assert m_iterators == nodes[0];
        m_iterators.m_prev := i;
      }
      m_iterators := i;
      nodes := [i] + nodes;
    }

    /** Takes element `k` out, wherever it stands. */
    method RemoveIterator(i: IcursorIterator<T>, ghost k: nat)
      requires WellLinked() && k < |nodes| && i == nodes[k]
      modifies this`m_iterators, this`nodes, nodes`m_prev, nodes`m_next
      ensures WellLinked() && nodes == Without(old(nodes), k)
      ensures i !in nodes && i.m_prev == null && i.m_next == null
    {
      hide Without, Linked, Distinct, At;
      ghost var was := nodes;
      Unlink(i, k);
      nodes := Without(was, k);
      WithoutIsDistinct(was, k);
      Relinked(was, k);
    }

    /** Lets the neighbours point past element `k`. */
    method Unlink(i: IcursorIterator<T>, ghost k: nat)
      requires WellLinked() && k < |nodes| && i == nodes[k]
      modifies this`m_iterators, nodes`m_prev, nodes`m_next
      ensures m_iterators == At(nodes, if k == 0 then 1 else 0) && i.m_prev == null && i.m_next == null
      ensures forall w :: 0 <= w < |nodes| && w != k ==> nodes[w].m_prev == At(nodes, if w == k + 1 then k - 1 else w - 1)
      ensures forall w :: 0 <= w < |nodes| && w != k ==> nodes[w].m_next == At(nodes, if w == k - 1 then k + 1 else w + 1)
    {
      hide Distinct;
      OnlyAt(nodes, k);
      OnlyAt(nodes, k - 1);
      OnlyAt(nodes, k + 1);
      if i == m_iterators {
        assert i == nodes[0];
        m_iterators := i.m_next;
        if m_iterators != null { m_iterators.m_prev := null; }
      } else {
        var prev, next := i.m_prev, i.m_next;
        assert prev == nodes[k - 1];
        prev.m_next := next;
        if next != null {
          assert next == nodes[k + 1];
          next.m_prev := prev;
        }
      }
      i.m_prev := null;
      i.m_next := null;
    }

    /** The first loop: walks the list and enters the due iterators into the multimap. */
    method CollectTodo(topos: int) returns (todo: seq<Todo<T>>)
      requires WellLinked()
      ensures Lists(todo, nodes, m_realpos, topos)
    {
      todo := [];
      var i := m_iterators;
      ghost var j := 0;
      while i != null
        invariant 0 <= j <= |nodes| && i == At(nodes, j)
        invariant Lists(todo, nodes[..j], m_realpos, topos)
        decreases |nodes| - j
      {
        var ipos := i.m_pos;
        ListsStep(todo, nodes, j, m_realpos, topos);
        if ipos >= m_realpos && ipos <= topos { todo := Inserted(todo, Todo(ipos, i)); }
        i := i.m_next;
        j := j + 1;
      }
      assert nodes[..j] == nodes;
    }

    /** The inner loop: every iterator at `readpos` gets the same block. */
    method FillGroup(todo: seq<Todo<T>>, first: nat, r: seq<T>, ghost start: nat) returns (next: nat)
      requires first < |todo| && SortedTodo(todo) && KeysArePositions(todo) && (0 < first ==> todo[first - 1].key < todo[first].key)
      modifies Items(todo)`m_here, Items(todo)`m_start
      ensures NextGroup(todo, first, next)
      ensures forall k :: first <= k < next ==> todo[k].item.m_here == r && todo[k].item.m_start == start
      ensures forall k :: 0 <= k < |todo| && todo[k].key != todo[first].key ==>
                todo[k].item.m_here == old(todo[k].item.m_here) && todo[k].item.m_start == old(todo[k].item.m_start)
    {
      var readpos := todo[first].key;
      next := first;
      while next < |todo| && todo[next].key == readpos
        invariant first <= next <= |todo|
        invariant forall k :: first <= k < next ==> todo[k].key == readpos && todo[k].item.m_here == r && todo[k].item.m_start == start
        invariant forall k :: 0 <= k < |todo| && todo[k].key != readpos ==>
                    todo[k].item.m_here == old(todo[k].item.m_here) && todo[k].item.m_start == old(todo[k].item.m_start)
      {
        todo[next].item.m_here := r;
        todo[next].item.m_start := start;
        next := next + 1;
      }
    }

    /** One turn of the outer loop: skips to the next position if it is ahead, reads one block, and hands it out. */
    method ServeGroup(todo: seq<Todo<T>>, i: nat) returns (next: nat, ghost start: nat)
      requires Positioned() && i < |todo| && SortedTodo(todo) && KeysArePositions(todo) && (0 < i ==> todo[i - 1].key < todo[i].key)
      modifies this`m_realpos, this`m_done, m_cur, m_cur.m_home, Items(todo)`m_here, Items(todo)`m_start
      ensures Positioned() && m_cur.m_home.pos >= old(m_cur.m_home.pos)
      ensures NextGroup(todo, i, next) && start == StartOf(todo[i].key, old(m_realpos), |m_cur.m_home.rows|)
      ensures m_realpos == Min(start + m_stride, |m_cur.m_home.rows|)
      ensures forall k :: i <= k < next ==>
                todo[k].item.m_here == Block(m_cur.m_home.rows, start, m_stride) && todo[k].item.m_start == start
      ensures forall k :: 0 <= k < |todo| && todo[k].key != todo[i].key ==>
                todo[k].item.m_here == old(todo[k].item.m_here) && todo[k].item.m_start == old(todo[k].item.m_start)
    {
      hide SortedTodo, Block, Known;
      var readpos := todo[i].key;
      if readpos > m_realpos { Ignore(readpos - m_realpos); }
      start := m_realpos;
      var r := FetchBlock();
      next := FillGroup(todo, i, r, start);
    }

    /** The outer loop. */
    method ServeAll(todo: seq<Todo<T>>) returns (ghost starts: seq<nat>)
      requires Positioned() && SortedTodo(todo) && KeysArePositions(todo) && Ahead(todo, 0, m_realpos)
      modifies this`m_realpos, this`m_done, m_cur, m_cur.m_home, Items(todo)`m_here, Items(todo)`m_start
      ensures Positioned() && m_cur.m_home.pos >= old(m_cur.m_home.pos)
      ensures |starts| == |todo| && Filled(todo, starts, m_cur.m_home.rows, m_stride)
      ensures RightStarts(todo, starts, |m_cur.m_home.rows|) <==> SpacedKeys(todo, m_stride, |m_cur.m_home.rows|)
    {
      hide SortedTodo, Block, Known, NotEarly, Apart, SpacedKeys, RightStarts, Ahead, NextGroup;
      ghost var n := |m_cur.m_home.rows|;
      starts := [];
      PlanStart(todo, m_realpos, m_stride, n);
      var i := 0;
      while i < |todo|
        invariant Positioned() && m_cur.m_home.pos >= old(m_cur.m_home.pos) && KeysArePositions(todo)
        invariant i == |starts| && Plan(todo, starts, m_realpos, m_stride, n)
        invariant Filled(todo, starts, m_cur.m_home.rows, m_stride)
      {
        ghost var realpos := m_realpos;
        EarlierKeys(todo, i);
        var next;
        ghost var start;
        next, start := ServeGroup(todo, i);
        GroupBounds(todo, i, next);
        PlanStep(todo, starts, realpos, m_stride, n, next, start);
        starts := Extended(starts, next, start);
        i := next;
      }
      PlanDone(todo, starts, m_realpos, m_stride, n);
    }

    /**
     * Every due iterator gets the block that starts where the cursor stood when its turn came; that is its own
     * position, for all of them, if and only if the due positions are at least one block apart. The cursor moves
     * forward only, no other iterator is touched, and the list stays as it is.
     */
    method ServiceIterators(topos: int)
      requires WellLinked() && Positioned()
      modifies this`m_realpos, this`m_done, m_cur, m_cur.m_home, nodes`m_here, nodes`m_start
      ensures WellLinked() && Positioned() && m_cur.m_home.pos >= old(m_cur.m_home.pos)
      ensures forall x :: x in nodes && Due(x, old(m_realpos), topos) ==> x.m_here == Block(m_cur.m_home.rows, x.m_start, m_stride)
      ensures Right(nodes, old(m_realpos), topos, |m_cur.m_home.rows|) <==>
              Spaced(nodes, old(m_realpos), topos, m_stride, |m_cur.m_home.rows|)
      ensures forall x :: x in nodes && !Due(x, old(m_realpos), topos) ==> x.m_here == old(x.m_here)
    {
      hide Positioned, WellLinked, Lists, Spaced, Right, SortedTodo, Block, KeysArePositions, Ahead, Filled, RightStarts, SpacedKeys;
      if topos < m_realpos {
        NothingDue(nodes, m_realpos, topos, m_stride, |m_cur.m_home.rows|);
        return;
      }
      var todo := CollectTodo(topos);
      ListedItems(todo, nodes, m_realpos, topos);
      ListsParts(todo, nodes, m_realpos, topos);
      ghost var from := m_realpos;
      ghost var starts := ServeListed(todo, from, topos);
      FilledStarts(todo, starts, nodes, from, topos, m_cur.m_home.rows, m_stride);
      ListedStarts(todo, starts, nodes, from, topos, m_cur.m_home.rows, m_stride);
    }

    /** Serving changes neither the links nor the positions. */
    method ServeListed(todo: seq<Todo<T>>, ghost from: int, ghost topos: int) returns (ghost starts: seq<nat>)
      requires Positioned() && WellLinked() && Lists(todo, nodes, from, topos) && Ahead(todo, 0, m_realpos) && SortedTodo(todo)
      requires KeysArePositions(todo) && forall x :: x in Items(todo) ==> x in nodes
      modifies this`m_realpos, this`m_done, m_cur, m_cur.m_home, Items(todo)`m_here, Items(todo)`m_start
      ensures Positioned() && m_stride >= 1 && m_cur.m_home.pos >= old(m_cur.m_home.pos) && WellLinked() && Lists(todo, nodes, from, topos)
      ensures |starts| == |todo| && Filled(todo, starts, m_cur.m_home.rows, m_stride)
      ensures RightStarts(todo, starts, |m_cur.m_home.rows|) <==> SpacedKeys(todo, m_stride, |m_cur.m_home.rows|)
    {
      hide At, Filled, RightStarts, SpacedKeys, Ahead, Known, SortedTodo, Distinct;
      starts := ServeAll(todo);
    }

    /** With one stride throughout, every position ever handed out is a multiple of it. */
    ghost predicate Aligned()
      reads this, nodes
    {
      m_stride >= 1 && IsMultiple(m_reqpos, m_stride) && forall x :: x in nodes ==> IsMultiple(x.m_pos, m_stride)
    }

    /** icursor_iterator(stream): starts at the position requested last. */
    method Begin() returns (i: IcursorIterator<T>)
      requires WellLinked() && Aligned()
      modifies this`m_reqpos, this`m_iterators, this`nodes, nodes`m_prev
      ensures WellLinked() && Aligned() && fresh(i) && nodes == [i] + old(nodes) && i.m_pos == m_reqpos == old(m_reqpos)
      ensures i.m_here == [] && (old(Positioned()) ==> Positioned())
    {
      hide Linked, Distinct, IsMultiple;
      var pos := Forward(0);
      i := new IcursorIterator(pos);
      InsertIterator(i);
    }

    /** icursor_iterator(rhs): a second iterator at the same position, with the same block. */
    method Copy(rhs: IcursorIterator<T>) returns (i: IcursorIterator<T>)
      requires WellLinked() && Aligned() && rhs in nodes
      modifies this`m_iterators, this`nodes, nodes`m_prev
      ensures WellLinked() && Aligned() && fresh(i) && nodes == [i] + old(nodes)
      ensures i.m_pos == rhs.m_pos && i.m_here == rhs.m_here && (old(Positioned()) ==> Positioned())
    {
      hide Linked, Distinct, IsMultiple;
      i := new IcursorIterator(rhs.m_pos);
      i.m_here, i.m_start := rhs.m_here, rhs.m_start;
      InsertIterator(i);
    }

    /** operator+=: false is its argument_error; otherwise requests n more blocks and forgets the current one. */
    method Advance(i: IcursorIterator<T>, n: int) returns (ok: bool)
      requires WellLinked() && Aligned() && i in nodes
      modifies this`m_reqpos, i`m_pos, i`m_here
      ensures ok == (n >= 0) && WellLinked() && Aligned() && (old(Positioned()) ==> Positioned())
      ensures n > 0 ==> i.m_pos == m_reqpos == old(m_reqpos) + n * m_stride && i.m_here == []
      ensures n <= 0 ==> i.m_pos == old(i.m_pos) && i.m_here == old(i.m_here) && m_reqpos == old(m_reqpos)
    {
      hide IsMultiple, Linked, Distinct, At;
      ok := n >= 0;
      if n <= 0 { return; }
      MultiplesAdd(m_reqpos, n, m_stride);
      i.m_pos := Forward(n);
      i.m_here := [];
      LinksStay(nodes);
    }

    /** With one stride throughout, every due iterator gets the block at its own position. */
    method ServiceAligned(topos: int)
      requires WellLinked() && Positioned() && Aligned()
      modifies this`m_realpos, this`m_done, m_cur, m_cur.m_home, nodes`m_here, nodes`m_start
      ensures WellLinked() && Positioned() && m_cur.m_home.pos >= old(m_cur.m_home.pos)
      ensures m_stride >= 0 && forall x :: x in nodes && Due(x, old(m_realpos), topos) ==>
                x.m_here == Block(m_cur.m_home.rows, Max(x.m_pos, 0), m_stride)
      ensures forall x :: x in nodes && !Due(x, old(m_realpos), topos) ==> x.m_here == old(x.m_here)
    {
      hide WellLinked, Positioned, Spaced, Right, Block;
      ghost var from := m_realpos;
      RealposBounds(this);
      ServiceIterators(topos);
      AlignedAreSpaced(nodes, from, topos, m_stride, |m_cur.m_home.rows|);
      OwnStarts(nodes, from, topos, m_cur.m_home.rows, m_stride);
    }

    lemma StartsAligned()
      requires nodes == [] && m_reqpos == 0 && m_stride >= 1
      ensures Aligned() && OwnBlocks()
    {
    }

    /** No iterator holds rows of any block but its own. */
    ghost predicate OwnBlocks()
      reads this, nodes, m_cur, m_cur.m_home
    {
      m_stride >= 0 && forall x :: x in nodes ==> x.m_here == [] || x.m_here == Block(m_cur.m_home.rows, Max(x.m_pos, 0), m_stride)
    }

    /** refresh(): an iterator whose position the cursor has not passed gets its own block. */
    method Refresh(i: IcursorIterator<T>)
      requires WellLinked() && Positioned() && Aligned() && i in nodes
      modifies this`m_realpos, this`m_done, m_cur, m_cur.m_home, nodes`m_here, nodes`m_start
      ensures WellLinked() && Positioned() && m_cur.m_home.pos >= old(m_cur.m_home.pos)
      ensures m_stride >= 0 && (i.m_pos >= old(m_realpos) ==> i.m_here == Block(m_cur.m_home.rows, Max(i.m_pos, 0), m_stride))
      ensures Aligned() && (old(OwnBlocks()) ==> OwnBlocks())
    {
      hide WellLinked, Positioned, Block, IsMultiple;
      var topos := i.m_pos;
      ghost var from, rows := m_realpos, m_cur.m_home.rows;
      ServiceAligned(topos);
      if old(OwnBlocks()) {
        forall x | x in nodes ensures x.m_here == [] || x.m_here == Block(rows, Max(x.m_pos, 0), m_stride) {
          if !Due(x, from, topos) { assert x.m_here == old(x.m_here); }
        }
      }
    }
  }

  datatype Request = NewIterator | CopyOf(which: nat) | MoveOn(which: nat, blocks: int) | Refresh(which: nat) | Drop(which: nat)

  /**
   * Whatever sequence of iterators made, copied, advanced, refreshed and dropped: on a stream whose stride is
   * never changed the list stays in order, and no iterator ever holds rows of any block but its own.
   */
  method RunRequests<T>(rows: seq<T>, sstride: int, requests: seq<Request>) returns (s: Icursorstream<T>, held: seq<IcursorIterator<T>>)
    requires sstride >= 1 && |rows| < ALL
    ensures s.WellLinked() && s.Positioned() && s.Aligned() && s.OwnBlocks()
    ensures held == s.nodes && s.m_stride == sstride && s.m_cur.m_home.rows == rows
  {
    hide *;
    s := new Icursorstream(rows, sstride);
    assert s.OwnBlocks() && s.Aligned() by { s.StartsAligned(); }
    held := [];
    for r := 0 to |requests|
      invariant fresh(s) && fresh(s.m_cur) && fresh(s.m_cur.m_home)
      invariant forall k :: 0 <= k < |s.nodes| ==> fresh(s.nodes[k])
      invariant s.WellLinked() && s.Positioned() && s.Aligned() && s.OwnBlocks()
      invariant held == s.nodes && s.m_stride == sstride && s.m_cur.m_home.rows == rows
    {
      held := OneRequest(s, held, requests[r]);
    }
  }

  method OneRequest<T>(s: Icursorstream<T>, held: seq<IcursorIterator<T>>, request: Request) returns (now: seq<IcursorIterator<T>>)
    requires s.WellLinked() && s.Positioned() && s.Aligned() && s.OwnBlocks() && held == s.nodes
    modifies s, s.m_cur, s.m_cur.m_home, s.nodes
    ensures s.WellLinked() && s.Positioned() && s.Aligned() && s.OwnBlocks() && now == s.nodes
    ensures s.m_stride == old(s.m_stride)
    ensures forall k :: 0 <= k < |now| ==> now[k] in held || fresh(now[k])
  {
    hide Linked, Distinct, Block, IsMultiple, Known, At, Without;
    now := held;
    match request {
      case NewIterator =>
        var i := s.Begin();
        now := [i] + held;
      case CopyOf(which) =>
        if which < |held| {
          var i := s.Copy(held[which]);
          now := [i] + held;
        }
      case MoveOn(which, blocks) =>
        if which < |held| { var ok := s.Advance(held[which], blocks); }
      case Refresh(which) =>
        if which < |held| { s.Refresh(held[which]); }
      case Drop(which) =>
        if which < |held| {
          WithoutHas(held, which);
          s.RemoveIterator(held[which], which);
          now := Without(held, which);
        }
    }
  }

  lemma WithoutHas<T>(s: seq<IcursorIterator<T>>, k: nat)
    requires k < |s|
    ensures forall x :: x in Without(s, k) ==> x in s
  {
  }

  lemma NotSpaced<T>(nodes: seq<IcursorIterator<T>>, n: nat)
    requires |nodes| == 2 && nodes[0].m_pos == 2 && nodes[1].m_pos == 0 && 2 < n
    ensures !Spaced(nodes, 0, 2, 5, n)
  {
    assert Due(nodes[0], 0, 2) && Due(nodes[1], 0, 2);
  }

  lemma NotRight<T>(nodes: seq<IcursorIterator<T>>, n: nat) returns (x: IcursorIterator<T>)
    requires !Right(nodes, 0, 2, n) && 2 < n
    ensures x in nodes && Due(x, 0, 2) && x.m_start != x.m_pos
  {
    var j :| 0 <= j < |nodes| && Due(nodes[j], 0, 2) && nodes[j].m_start != Min(nodes[j].m_pos, n);
    x := nodes[j];
  }

  /** A stride set to 5 between the iterators at 0 and 2: serving both cannot give each its own block. */
  method ChangedStride<T>(rows: seq<T>) returns (s: Icursorstream<T>)
    requires 2 < |rows| < ALL
    ensures s.WellLinked() && s.Positioned() && s.m_stride == 5 && s.m_cur.m_home.rows == rows
    ensures exists x :: x in s.nodes && x.m_start != x.m_pos && x.m_here == Block(rows, x.m_start, 5)
  {
    hide *;
    s := new Icursorstream(rows, 2);
    s.StartsAligned();
    var first := s.Begin();
    var second := s.Begin();
    assert s.nodes == [second, first];
    var advanced := s.Advance(second, 1);
    var accepted := s.SetStride(5);
    NotSpaced(s.nodes, |rows|);
    s.ServiceIterators(2);
    NotSpaced(s.nodes, |rows|);
    ghost var x := NotRight(s.nodes, |rows|);
  }
}
