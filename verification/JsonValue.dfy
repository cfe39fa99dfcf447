/**
 The value tree of the JSON library.  A byte is a `char`; nothing below depends on
 its code being less than 256.  Objects and arrays are both ordered maps, so both
 are an association list with strictly increasing keys.
 */
module JsonValue {
  import opened Basics

  const MAX_INT := 0x7FFF_FFFF                       // maxInt
  const MAX_INDEX := 0xFFFF_FFFF                     // the largest ArrayIndex
  const MAX_LARGEST_INT := 0x7FFF_FFFF_FFFF_FFFF     // maxLargestInt
  const MAX_LARGEST_UINT := 0xFFFF_FFFF_FFFF_FFFF    // maxLargestUInt

  /** A double; Finite(0.0) stands for both zeros. */
  datatype Double = NaN | MinusInfinity | Finite(value: real) | Infinity

  datatype CZString = Index(index: nat) | Name(str: string)

  /** A value with the offsets of the text it was read from. */
  datatype Node = Node(payload: Payload, start: nat, limit: nat)

  datatype Payload =
    | NullValue
    | IntValue(int_: int)
    | UIntValue(uint_: nat)
    | RealValue(real_: Double)
    | StringValue(string_: string)
    | NullString                      // a string value whose pointer is null
    | BoolValue(bool_: bool)
    | ArrayValue(items: Entries)
    | ObjectValue(members: Entries)

  datatype Entries = Nil | Cons(key: CZString, node: Node, rest: Entries)

  const NullNode := Node(NullValue, 0, 0)

  // ---------------------------------------------------------------- key order

  /** memcmp over the common prefix, then the shorter string first. */
  predicate StringLess(a: string, b: string) {
    if a == [] then b != []
    else if b == [] then false
    else if a[0] != b[0] then a[0] < b[0]
    else StringLess(a[1..], b[1..])
  }

  predicate KeyLess(a: CZString, b: CZString) {
    match (a, b)
    case (Index(i), Index(j)) => i < j
    case (Name(s), Name(t)) => StringLess(s, t)
    case (Index(_), Name(_)) => true
    case (Name(_), Index(_)) => false
  }

  /** `a` stands before `b` in byte order: it ends first, or has the smaller byte where they first differ. */
  predicate BeforeAt(a: string, b: string, k: nat) {
    && k <= |a| && k <= |b| && a[..k] == b[..k]
    && (if k < |a| && k < |b| then a[k] < b[k] else k == |a| < |b|)
  }

  lemma FirstBytes(a: string, b: string, k: nat)
    requires BeforeAt(a, b, k)
    ensures if k > 0 then a != [] && b != [] && a[0] == b[0] else if a != [] && b != [] then a[0] < b[0] else a == [] != b
  {
    if k > 0 { assert a[0] == a[..k][0] && b[0] == b[..k][0]; }
  }

  lemma {:induction false} StringLessMeans(a: string, b: string)
    ensures StringLess(a, b) <==> exists k: nat :: BeforeAt(a, b, k)
    decreases |a|
  {
    if a == [] || b == [] || a[0] != b[0] {
      if StringLess(a, b) { assert BeforeAt(a, b, 0); }
      forall k: nat | BeforeAt(a, b, k) ensures StringLess(a, b) { FirstBytes(a, b, k); }
    } else {
      StringLessMeans(a[1..], b[1..]);
      forall k: nat | BeforeAt(a[1..], b[1..], k) ensures BeforeAt(a, b, k + 1) {
        assert a[..k + 1] == [a[0]] + a[1..][..k] && b[..k + 1] == [b[0]] + b[1..][..k];
      }
      forall k: nat | BeforeAt(a, b, k) ensures k > 0 && BeforeAt(a[1..], b[1..], k - 1) {
        assert a[1..][..k - 1] == a[..k][1..] && b[1..][..k - 1] == b[..k][1..];
      }
    }
  }

  lemma {:induction false} StringLessTransitive(a: string, b: string, c: string)
    requires StringLess(a, b) && StringLess(b, c)
    ensures StringLess(a, c)
  {
    if a != [] && a[0] == b[0] && b[0] == c[0] {
      StringLessTransitive(a[1..], b[1..], c[1..]);
    }
  }

  lemma {:induction false} StringLessTotal(a: string, b: string)
    ensures !(StringLess(a, b) && StringLess(b, a))
    ensures !StringLess(a, b) && !StringLess(b, a) <==> a == b
    decreases |a|
  {
    if a != [] && b != [] && a[0] == b[0] {
      StringLessTotal(a[1..], b[1..]);
      assert a == [a[0]] + a[1..] && b == [b[0]] + b[1..];
    }
  }

  lemma KeyLessTransitive(a: CZString, b: CZString, c: CZString)
    requires KeyLess(a, b) && KeyLess(b, c)
    ensures KeyLess(a, c)
  {
    if a.Name? && b.Name? && c.Name? {
      StringLessTransitive(a.str, b.str, c.str);
    }
  }

  /** Indices by number, names by their bytes. */
  lemma KeyLessMeans(i: nat, j: nat, s: string, t: string)
    ensures KeyLess(Index(i), Index(j)) <==> i < j
    ensures KeyLess(Name(s), Name(t)) <==> exists k: nat :: BeforeAt(s, t, k)
  {
    StringLessMeans(s, t);
  }

  lemma KeyLessTotal(a: CZString, b: CZString)
    ensures !(KeyLess(a, b) && KeyLess(b, a))
    ensures !KeyLess(a, b) && !KeyLess(b, a) <==> a == b
  {
    if a.Name? && b.Name? {
      StringLessTotal(a.str, b.str);
    }
  }

  // ---------------------------------------------------------------- ordered maps

  /** Every key exceeds `low`, and keys strictly increase. */
  predicate SortedAbove(low: CZString, es: Entries)
    decreases es
  {
    es.Cons? ==> KeyLess(low, es.key) && SortedAbove(es.key, es.rest)
  }

  predicate Sorted(es: Entries) {
    es.Cons? ==> SortedAbove(es.key, es.rest)
  }

  function Find(es: Entries, key: CZString): Option<Node> {
    match es
    case Nil => None
    case Cons(k, n, rest) => if k == key then Some(n) else Find(rest, key)
  }

  /** The node operator[] refers to: the stored one, or a fresh null. */
  function Child(es: Entries, key: CZString): Node {
    var found := Find(es, key);
    if found.Some? then found.value else NullNode
  }

  /** The map after the node under `key` has become `node`. */
  function Put(es: Entries, key: CZString, node: Node): Entries {
    match es
    case Nil => Cons(key, node, Nil)
    case Cons(k, n, rest) =>
      if k == key then Cons(key, node, rest)
      else if KeyLess(key, k) then Cons(key, node, es)
      else Cons(k, n, Put(rest, key, node))
  }

  function Length(es: Entries): nat {
    if es.Nil? then 0 else 1 + Length(es.rest)
  }

  /** The highest index plus one. */
  function ArraySize(es: Entries): nat {
    if es.Nil? then 0
    else if es.rest.Nil? then (if es.key.Index? then es.key.index + 1 else 0)
    else ArraySize(es.rest)
  }

  /** size() of an array, an unsigned int: it wraps to 0 above the largest index. */
  function UIntSize(es: Entries): nat { ArraySize(es) % (MAX_INDEX + 1) }

  /** size() of an array stored in an int, which makes it negative from 2^31 on. */
  function IntSize(es: Entries): int { ToInt32(UIntSize(es)) }

  predicate IndexKeys(es: Entries) { es.Cons? ==> es.key.Index? && es.key.index <= MAX_INDEX && IndexKeys(es.rest) }
  predicate NameKeys(es: Entries) { es.Cons? ==> es.key.Name? && NameKeys(es.rest) }

  /** What the C++ class maintains: maps are ordered, arrays are keyed by 32-bit index, objects by name. */
  predicate WellFormed(p: Payload) {
    match p
    case IntValue(i) => -MAX_LARGEST_INT - 1 <= i <= MAX_LARGEST_INT
    case UIntValue(u) => u <= MAX_LARGEST_UINT
    case ArrayValue(es) => IndexKeys(es) && Sorted(es) && WellFormedEntries(es)
    case ObjectValue(es) => NameKeys(es) && Sorted(es) && WellFormedEntries(es)
    case _ => true
  }

  predicate WellFormedEntries(es: Entries) {
    es.Cons? ==> WellFormed(es.node.payload) && WellFormedEntries(es.rest)
  }

  /** No real number and no null string anywhere in the tree. */
  predicate Plain(p: Payload) {
    match p
    case RealValue(_) => false
    case NullString => false
    case ArrayValue(es) => PlainEntries(es)
    case ObjectValue(es) => PlainEntries(es)
    case _ => true
  }

  predicate PlainEntries(es: Entries) {
    es.Cons? ==> Plain(es.node.payload) && PlainEntries(es.rest)
  }

  // ---------------------------------------------------------------- measures

  /** Nesting: a scalar is 1 deep. */
  function Depth(p: Payload): nat {
    match p
    case ArrayValue(es) => 1 + DepthEntries(es)
    case ObjectValue(es) => 1 + DepthEntries(es)
    case _ => 1
  }

  function DepthEntries(es: Entries): nat {
    if es.Nil? then 0 else Max(Depth(es.node.payload), DepthEntries(es.rest))
  }

  /** The number of values in a tree. */
  function Size(p: Payload): nat
    decreases p
  {
    match p
    case ArrayValue(es) => 1 + SizeEntries(es)
    case ObjectValue(es) => 1 + SizeEntries(es)
    case _ => 1
  }

  function SizeEntries(es: Entries): nat
    decreases es
  {
    if es.Nil? then 0 else 1 + Size(es.node.payload) + SizeEntries(es.rest)
  }

  /** Forget every offset. */
  function Strip(p: Payload): Payload {
    match p
    case ArrayValue(es) => ArrayValue(StripEntries(es))
    case ObjectValue(es) => ObjectValue(StripEntries(es))
    case _ => p
  }

  function StripEntries(es: Entries): Entries {
    if es.Nil? then Nil
    else Cons(es.key, Node(Strip(es.node.payload), 0, 0), StripEntries(es.rest))
  }

  /** Forgetting offsets keeps every scalar, and under every key what is there. */
  lemma {:induction false} StripKeeps(p: Payload, es: Entries, key: CZString)
    ensures !p.ArrayValue? && !p.ObjectValue? ==> Strip(p) == p
    ensures Strip(ArrayValue(es)) == ArrayValue(StripEntries(es)) && Strip(ObjectValue(es)) == ObjectValue(StripEntries(es))
    ensures var found := Find(es, key);
            Find(StripEntries(es), key) == if found.None? then None else Some(Node(Strip(found.value.payload), 0, 0))
    decreases es
  {
    if es.Cons? { StripKeeps(p, es.rest, key); }
  }
}
