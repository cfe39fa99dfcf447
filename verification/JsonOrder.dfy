/**
 operator< and operator== on values.  Neither looks at offsets; up to those, operator< is a
 strict total order exactly on values without NaN whose sizes fit the int that it subtracts them in.
 */
module JsonOrder {
  import opened Basics
  import opened JsonValue

  /** The numbering of the value types. */
  function TypeOf(p: Payload): nat {
    match p
    case NullValue => 0
    case IntValue(_) => 1
    case UIntValue(_) => 2
    case RealValue(_) => 3
    case StringValue(_) => 4
    case NullString => 4
    case BoolValue(_) => 5
    case ArrayValue(_) => 6
    case ObjectValue(_) => 7
  }

  predicate DoubleLess(x: Double, y: Double) {
    match (x, y)
    case (NaN, _) => false
    case (_, NaN) => false
    case (Finite(a), Finite(b)) => a < b
    case _ => x != y && (x.MinusInfinity? || y.Infinity?)
  }

  predicate DoubleEqual(x: Double, y: Double) { x == y && x != NaN }

  predicate Less(a: Payload, b: Payload)
    decreases Size(a) + Size(b), 0
  {
    if TypeOf(a) != TypeOf(b) then TypeOf(a) < TypeOf(b)
    else
      match a
      case NullValue => false
      case IntValue(i) => i < b.int_
      case UIntValue(u) => u < b.uint_
      case RealValue(r) => DoubleLess(r, b.real_)
      case BoolValue(x) => !x && b.bool_
      case NullString => !b.NullString?
      case StringValue(s) => !b.NullString? && StringLess(s, b.string_)
      case ArrayValue(es) => LessMaps(es, b.items)
      case ObjectValue(es) => LessMaps(es, b.members)
  }

  /** First by the number of entries, then entry by entry. */
  predicate LessMaps(a: Entries, b: Entries)
    decreases SizeEntries(a) + SizeEntries(b), 1
  {
    var delta := ToInt32(Length(a) - Length(b));
    if delta != 0 then delta < 0 else LessEntries(a, b)
  }

  /** The lexicographic order of maps: by the first entries that differ, by key and then by value. */
  predicate LessEntries(a: Entries, b: Entries)
    decreases SizeEntries(a) + SizeEntries(b), 0
  {
    if a.Nil? || b.Nil? then b.Cons?
    else if KeyLess(a.key, b.key) || KeyLess(b.key, a.key) then KeyLess(a.key, b.key)
    else if Less(a.node.payload, b.node.payload) then true
    else !Less(b.node.payload, a.node.payload) && LessEntries(a.rest, b.rest)
  }

  predicate Equal(a: Payload, b: Payload)
    decreases a
  {
    TypeOf(a) == TypeOf(b) &&
    match a
    case NullValue => true
    case IntValue(i) => i == b.int_
    case UIntValue(u) => u == b.uint_
    case RealValue(r) => DoubleEqual(r, b.real_)
    case BoolValue(x) => x == b.bool_
    case NullString => b.NullString?
    case StringValue(s) => !b.NullString? && s == b.string_
    case ArrayValue(es) => Length(es) == Length(b.items) && EqualEntries(es, b.items)
    case ObjectValue(es) => Length(es) == Length(b.members) && EqualEntries(es, b.members)
  }

  predicate EqualEntries(a: Entries, b: Entries)
    decreases a
  {
    if a.Nil? || b.Nil? then a.Nil? && b.Nil?
    else a.key == b.key && Equal(a.node.payload, b.node.payload) && EqualEntries(a.rest, b.rest)
  }

  // ---------------------------------------------------------------- what it compares

  /** Scalars of one type by their values: false before true, strings by their bytes, a null pointer before any string. */
  lemma ScalarsByValue(i: int, j: int, u: nat, w: nat, x: bool, y: bool, s: string, t: string)
    ensures Less(IntValue(i), IntValue(j)) <==> i < j
    ensures Less(UIntValue(u), UIntValue(w)) <==> u < w
    ensures Less(BoolValue(x), BoolValue(y)) <==> !x && y
    ensures Less(StringValue(s), StringValue(t)) <==> exists k: nat :: BeforeAt(s, t, k)
    ensures Less(NullString, StringValue(s)) && !Less(StringValue(s), NullString) && !Less(NullString, NullString)
    ensures !Less(NullValue, NullValue)
  {
    StringLessMeans(s, t);
  }

  lemma DoublesByValue(p: real, q: real, d: Double)
    ensures Less(RealValue(Finite(p)), RealValue(Finite(q))) <==> p < q
    ensures d.Finite? ==> Less(RealValue(MinusInfinity), RealValue(d)) && Less(RealValue(d), RealValue(Infinity))
    ensures Less(RealValue(MinusInfinity), RealValue(Infinity))
    ensures !Less(RealValue(NaN), RealValue(d)) && !Less(RealValue(d), RealValue(NaN)) && !Equal(RealValue(NaN), RealValue(d))
    ensures !Less(RealValue(Infinity), RealValue(d)) && !Less(RealValue(d), RealValue(MinusInfinity))
  {
  }

  /** The types in their order. */
  lemma TypesInOrder(i: int, u: nat, d: Double, s: string, x: bool, a: Entries, b: Entries)
    ensures var v := [NullValue, IntValue(i), UIntValue(u), RealValue(d), StringValue(s), BoolValue(x), ArrayValue(a), ObjectValue(b)];
            forall k, l :: 0 <= k < l < 8 ==> Less(v[k], v[l]) && !Less(v[l], v[k])
    ensures Less(RealValue(d), NullString) && Less(NullString, BoolValue(x))
  {
  }

  /** Of two maps the one with fewer entries is less. */
  lemma FewerEntriesAreLess(a: Entries, b: Entries)
    requires Length(a) < Length(b) <= 0x7FFF_FFFF
    ensures Less(ArrayValue(a), ArrayValue(b)) && !Less(ArrayValue(b), ArrayValue(a))
    ensures Less(ObjectValue(a), ObjectValue(b)) && !Less(ObjectValue(b), ObjectValue(a))
  {
  }

  function Nth(es: Entries, k: nat): Entries
    requires k < Length(es)
    ensures Nth(es, k).Cons?
  {
    if k == 0 then es else Nth(es.rest, k - 1)
  }

  /** Entries `k` are the first that differ, and that of `a` has the smaller key, or the same key and the smaller value. */
  ghost predicate EntryLessAt(a: Entries, b: Entries, k: nat) {
    && k < Length(a) && k < Length(b)
    && (forall j: nat :: j < k ==> !EntryLess(Nth(a, j), Nth(b, j)) && !EntryLess(Nth(b, j), Nth(a, j)))
    && EntryLess(Nth(a, k), Nth(b, k))
  }

  predicate EntryLess(a: Entries, b: Entries)
    requires a.Cons? && b.Cons?
  {
    KeyLess(a.key, b.key) || (a.key == b.key && Less(a.node.payload, b.node.payload))
  }

  /** Maps of one size by their first entries that differ. */
  lemma {:induction false} EntriesByFirstDifference(a: Entries, b: Entries)
    requires Length(a) == Length(b)
    ensures LessEntries(a, b) <==> exists k: nat :: EntryLessAt(a, b, k)
    decreases a
  {
    hide Less, KeyLess;
    if a.Cons? {
      KeyLessTotal(a.key, b.key);
      EntriesByFirstDifference(a.rest, b.rest);
      forall k: nat | EntryLessAt(a.rest, b.rest, k) && !EntryLess(a, b) && !EntryLess(b, a) ensures EntryLessAt(a, b, k + 1) {
        forall j: nat | j < k + 1 ensures !EntryLess(Nth(a, j), Nth(b, j)) && !EntryLess(Nth(b, j), Nth(a, j)) {
          if j > 0 { assert Nth(a, j) == Nth(a.rest, j - 1) && Nth(b, j) == Nth(b.rest, j - 1); }
        }
      }
      forall k: nat | EntryLessAt(a, b, k) ensures k == 0 || EntryLessAt(a.rest, b.rest, k - 1) {
        if k > 0 {
          forall j: nat | j < k - 1 ensures !EntryLess(Nth(a.rest, j), Nth(b.rest, j)) && !EntryLess(Nth(b.rest, j), Nth(a.rest, j)) {
            assert Nth(a, j + 1) == Nth(a.rest, j) && Nth(b, j + 1) == Nth(b.rest, j);
          }
        }
      }
      if EntryLess(a, b) { assert EntryLessAt(a, b, 0); }
      FirstEntries(a, b);
    }
  }

  lemma FirstEntries(a: Entries, b: Entries)
    requires a.Cons? && b.Cons?
    ensures Nth(a, 0) == a && Nth(b, 0) == b
    ensures forall k: nat :: EntryLessAt(a, b, k) && k > 0 ==> !EntryLess(a, b) && !EntryLess(b, a)
  {
    hide EntryLess;
    forall k: nat | EntryLessAt(a, b, k) && k > 0 ensures !EntryLess(a, b) && !EntryLess(b, a) {
      assert !EntryLess(Nth(a, 0), Nth(b, 0)) && !EntryLess(Nth(b, 0), Nth(a, 0));
    }
  }

  /** So arrays and objects of one size are compared. */
  lemma SameSizeByFirstDifference(a: Entries, b: Entries)
    requires Length(a) == Length(b)
    ensures Less(ArrayValue(a), ArrayValue(b)) <==> exists k: nat :: EntryLessAt(a, b, k)
    ensures Less(ObjectValue(a), ObjectValue(b)) <==> exists k: nat :: EntryLessAt(a, b, k)
  {
    EntriesByFirstDifference(a, b);
  }

  // ---------------------------------------------------------------- equality

  predicate NaNFree(p: Payload)
    decreases p
  {
    match p
    case RealValue(r) => r != NaN
    case ArrayValue(es) => NaNFreeEntries(es)
    case ObjectValue(es) => NaNFreeEntries(es)
    case _ => true
  }

  predicate NaNFreeEntries(es: Entries)
    decreases es
  {
    es.Cons? ==> NaNFree(es.node.payload) && NaNFreeEntries(es.rest)
  }

  /** operator== is equality of the trees with their offsets forgotten, except that a tree with a NaN equals none. */
  lemma {:induction false} EqualIsSameTree(a: Payload, b: Payload)
    ensures Equal(a, b) <==> Strip(a) == Strip(b) && NaNFree(a)
    decreases a
  {
    match a
    case ArrayValue(es) => if b.ArrayValue? { EqualEntriesIsSameMap(es, b.items); }
    case ObjectValue(es) => if b.ObjectValue? { EqualEntriesIsSameMap(es, b.members); }
    case _ =>
  }

  lemma {:induction false} EqualEntriesIsSameMap(a: Entries, b: Entries)
    ensures EqualEntries(a, b) <==> StripEntries(a) == StripEntries(b) && NaNFreeEntries(a)
    ensures StripEntries(a) == StripEntries(b) ==> Length(a) == Length(b)
    decreases a
  {
    if a.Cons? && b.Cons? {
      EqualIsSameTree(a.node.payload, b.node.payload);
      EqualEntriesIsSameMap(a.rest, b.rest);
    }
  }

  /** Forgetting offsets forgets no NaN. */
  lemma {:induction false} StripKeepsNaN(p: Payload)
    ensures NaNFree(Strip(p)) == NaNFree(p)
    decreases p
  {
    match p
    case ArrayValue(es) => StripKeepsNaNs(es);
    case ObjectValue(es) => StripKeepsNaNs(es);
    case _ =>
  }

  lemma {:induction false} StripKeepsNaNs(es: Entries)
    ensures NaNFreeEntries(StripEntries(es)) == NaNFreeEntries(es)
    decreases es
  {
    if es.Cons? {
      StripKeepsNaN(es.node.payload);
      StripKeepsNaNs(es.rest);
    }
  }

  /** Symmetric and transitive on all values, reflexive exactly on those without NaN. */
  lemma EqualIsEquivalence(a: Payload, b: Payload, c: Payload)
    ensures Equal(a, a) <==> NaNFree(a)
    ensures Equal(a, b) ==> Equal(b, a)
    ensures Equal(a, b) && Equal(b, c) ==> Equal(a, c)
  {
    EqualIsSameTree(a, a);
    EqualIsSameTree(a, b);
    EqualIsSameTree(b, a);
    EqualIsSameTree(b, c);
    EqualIsSameTree(a, c);
    StripKeepsNaN(a);
    StripKeepsNaN(b);
  }

  // ---------------------------------------------------------------- the size subtraction

  /** No map in the tree has more than `most` entries. */
  predicate MapsUpTo(p: Payload, most: nat)
    decreases p
  {
    match p
    case ArrayValue(es) => Length(es) <= most && EntriesUpTo(es, most)
    case ObjectValue(es) => Length(es) <= most && EntriesUpTo(es, most)
    case _ => true
  }

  predicate EntriesUpTo(es: Entries, most: nat)
    decreases es
  {
    es.Cons? ==> MapsUpTo(es.node.payload, most) && EntriesUpTo(es.rest, most)
  }

  /** On such values the laws of an order hold. */
  predicate Ordinary(p: Payload) { MapsUpTo(p, MAX_INT) && NaNFree(p) }

  predicate OrdinaryEntries(es: Entries) { EntriesUpTo(es, MAX_INT) && NaNFreeEntries(es) }

  /** Two arrays whose sizes differ by exactly 2^31 are each less than the other. */
  lemma BothLess(a: Entries, b: Entries)
    requires Length(a) == Length(b) + 0x8000_0000
    ensures Less(ArrayValue(a), ArrayValue(b)) && Less(ArrayValue(b), ArrayValue(a))
  {
  }

  function Nulls(first: nat, count: nat): Entries
    decreases count
  {
    if count == 0 then Nil else Cons(Index(first), NullNode, Nulls(first + 1, count - 1))
  }

  lemma {:induction false} NullsAreWellFormed(first: nat, count: nat, most: nat)
    requires first + count <= MAX_INDEX + 1
    ensures var es := Nulls(first, count);
            && Length(es) == count && EntriesUpTo(es, most)
            && IndexKeys(es) && Sorted(es) && WellFormedEntries(es) && NaNFreeEntries(es)
    decreases count
  {
    if count > 0 { NullsAreWellFormed(first + 1, count - 1, most); }
  }

  /** With 2^31 entries on one side the difference overflows: an array and the empty array are each less than the other. */
  lemma OverflowingSizesAreNotOrdered()
    ensures var big, empty := ArrayValue(Nulls(0, 0x8000_0000)), ArrayValue(Nil);
            && WellFormed(big) && MapsUpTo(big, MAX_INT + 1) && WellFormed(empty)
            && Less(big, empty) && Less(empty, big)
  {
    NullsAreWellFormed(0, 0x8000_0000, MAX_INT + 1);
    BothLess(Nulls(0, 0x8000_0000), Nil);
  }

  // ---------------------------------------------------------------- a strict total order

  lemma {:induction false} SizePositive(es: Entries)
    requires es.Cons?
    ensures Size(es.node.payload) < SizeEntries(es) && SizeEntries(es.rest) < SizeEntries(es)
  {
  }

  /** Exactly one of less, equal and greater. */
  lemma {:induction false} Trichotomy(a: Payload, b: Payload)
    requires Ordinary(a) && Ordinary(b)
    ensures !(Less(a, b) && Less(b, a))
    ensures Equal(a, b) <==> !Less(a, b) && !Less(b, a)
    decreases Size(a) + Size(b), 2
  {
    if TypeOf(a) == TypeOf(b) {
      match a
      case StringValue(s) => if b.StringValue? { StringLessTotal(s, b.string_); }
      case ArrayValue(es) => TrichotomyMaps(es, b.items);
      case ObjectValue(es) => TrichotomyMaps(es, b.members);
      case _ =>
    }
  }

  lemma {:induction false} TrichotomyMaps(a: Entries, b: Entries)
    requires OrdinaryEntries(a) && OrdinaryEntries(b) && Length(a) <= MAX_INT && Length(b) <= MAX_INT
    ensures !(LessMaps(a, b) && LessMaps(b, a))
    ensures Length(a) == Length(b) && EqualEntries(a, b) <==> !LessMaps(a, b) && !LessMaps(b, a)
    decreases SizeEntries(a) + SizeEntries(b), 1
  {
    TrichotomyEntries(a, b);
  }

  lemma {:induction false} TrichotomyEntries(a: Entries, b: Entries)
    requires OrdinaryEntries(a) && OrdinaryEntries(b)
    ensures !(LessEntries(a, b) && LessEntries(b, a))
    ensures EqualEntries(a, b) <==> !LessEntries(a, b) && !LessEntries(b, a)
    decreases SizeEntries(a) + SizeEntries(b), 0
  {
    if a.Cons? && b.Cons? {
      KeyLessTotal(a.key, b.key);
      SizePositive(a);
      SizePositive(b);
      Trichotomy(a.node.payload, b.node.payload);
      TrichotomyEntries(a.rest, b.rest);
      hide Less, Equal, KeyLess;
    }
  }

  lemma EqualScalars(a: Payload, b: Payload)
    requires Equal(a, b) && !a.ArrayValue? && !a.ObjectValue?
    ensures a == b
  {
  }

  /** Equal values compare alike with any third one. */
  lemma {:induction false} EqualLess(a: Payload, b: Payload, c: Payload)
    requires Ordinary(a) && Ordinary(b) && Ordinary(c) && Equal(a, b)
    ensures Less(a, c) == Less(b, c) && Less(c, a) == Less(c, b)
    decreases Size(a) + Size(b) + Size(c), 2
  {
    hide LessEntries, EqualEntries, StringLess, DoubleLess, DoubleEqual, ToInt32;
    if a.ArrayValue? {
      if c.ArrayValue? { EqualLessEntries(a.items, b.items, c.items); }
    } else if a.ObjectValue? {
      if c.ObjectValue? { EqualLessEntries(a.members, b.members, c.members); }
    } else {
      EqualScalars(a, b);
    }
  }

  lemma {:induction false} EqualLessEntries(a: Entries, b: Entries, c: Entries)
    requires OrdinaryEntries(a) && OrdinaryEntries(b) && OrdinaryEntries(c) && EqualEntries(a, b)
    ensures LessEntries(a, c) == LessEntries(b, c) && LessEntries(c, a) == LessEntries(c, b) && Length(a) == Length(b)
    decreases SizeEntries(a) + SizeEntries(b) + SizeEntries(c), 0
  {
    EqualEntriesIsSameMap(a, b);
    if a.Cons? && c.Cons? {
      SizePositive(a);
      SizePositive(b);
      SizePositive(c);
      EqualLess(a.node.payload, b.node.payload, c.node.payload);
      EqualLessEntries(a.rest, b.rest, c.rest);
      hide Less, Equal, KeyLess;
    }
  }

  lemma {:induction false} Transitive(a: Payload, b: Payload, c: Payload)
    requires Ordinary(a) && Ordinary(b) && Ordinary(c) && Less(a, b) && Less(b, c)
    ensures Less(a, c)
    decreases Size(a) + Size(b) + Size(c), 2
  {
    if TypeOf(a) == TypeOf(b) == TypeOf(c) {
      match a
      case StringValue(s) => StringLessTransitive(s, b.string_, c.string_);
      case ArrayValue(es) => TransitiveMaps(es, b.items, c.items);
      case ObjectValue(es) => TransitiveMaps(es, b.members, c.members);
      case _ =>
    }
  }

  lemma {:induction false} TransitiveMaps(a: Entries, b: Entries, c: Entries)
    requires OrdinaryEntries(a) && OrdinaryEntries(b) && OrdinaryEntries(c)
    requires Length(a) <= MAX_INT && Length(b) <= MAX_INT && Length(c) <= MAX_INT
    requires LessMaps(a, b) && LessMaps(b, c)
    ensures LessMaps(a, c)
    decreases SizeEntries(a) + SizeEntries(b) + SizeEntries(c), 1
  {
    if Length(a) == Length(b) == Length(c) { TransitiveEntries(a, b, c); }
  }

  lemma {:induction false} TransitiveEntries(a: Entries, b: Entries, c: Entries)
    requires OrdinaryEntries(a) && OrdinaryEntries(b) && OrdinaryEntries(c)
    requires LessEntries(a, b) && LessEntries(b, c)
    ensures LessEntries(a, c)
    decreases SizeEntries(a) + SizeEntries(b) + SizeEntries(c), 0
  {
    if a.Cons? {
      SizePositive(a);
      SizePositive(b);
      SizePositive(c);
      KeyLessTotal(a.key, b.key);
      KeyLessTotal(b.key, c.key);
      KeyLessTotal(a.key, c.key);
      if KeyLess(a.key, b.key) && KeyLess(b.key, c.key) { KeyLessTransitive(a.key, b.key, c.key); }
      if a.key == b.key == c.key {
        var x, y, z := a.node.payload, b.node.payload, c.node.payload;
        Trichotomy(x, y);
        Trichotomy(y, z);
        Trichotomy(x, z);
        if Less(x, y) && Less(y, z) { Transitive(x, y, z); }
        else if Equal(x, y) {
          EqualLess(x, y, z);
          if Equal(y, z) { TransitiveEntries(a.rest, b.rest, c.rest); }
        } else if Equal(y, z) {
          EqualLess(y, z, x);
        }
      }
      hide Less, Equal, KeyLess;
    }
  }

  // ---------------------------------------------------------------- exactly when it is one

  /** Well-formed values whose maps have at most `most` entries, with or without NaNs. */
  predicate InDomain(p: Payload, most: nat, nans: bool) {
    WellFormed(p) && MapsUpTo(p, most) && (nans || NaNFree(p))
  }

  /** The laws of a strict total order, at three values. */
  predicate OrderLaws(a: Payload, b: Payload, c: Payload) {
    && (if Less(a, b) || Less(b, a) then Less(a, b) != Less(b, a) && !Equal(a, b) else Equal(a, b))
    && (Less(a, b) && Less(b, c) ==> Less(a, c))
  }

  lemma {:induction false} FewerEntries(p: Payload, most: nat, more: nat)
    requires MapsUpTo(p, most) && most <= more
    ensures MapsUpTo(p, more)
    decreases p
  {
    match p
    case ArrayValue(es) => FewerInEntries(es, most, more);
    case ObjectValue(es) => FewerInEntries(es, most, more);
    case _ =>
  }

  lemma {:induction false} FewerInEntries(es: Entries, most: nat, more: nat)
    requires EntriesUpTo(es, most) && most <= more
    ensures EntriesUpTo(es, more)
    decreases es
  {
    if es.Cons? {
      FewerEntries(es.node.payload, most, more);
      FewerInEntries(es.rest, most, more);
    }
  }

  lemma OrdinaryLaws(a: Payload, b: Payload, c: Payload)
    requires Ordinary(a) && Ordinary(b) && Ordinary(c)
    ensures OrderLaws(a, b, c)
  {
    Trichotomy(a, b);
    if Less(a, b) && Less(b, c) { Transitive(a, b, c); }
  }

  /** operator< and operator== make a strict total order exactly up to 2^31-1 entries a map and without NaNs. */
  lemma TotalOrderExactly(most: nat, nans: bool)
    ensures (forall a, b, c | InDomain(a, most, nans) && InDomain(b, most, nans) && InDomain(c, most, nans) :: OrderLaws(a, b, c))
            <==> most <= 0x7FFF_FFFF && !nans
  {
    if most > MAX_INT {
      var big, empty := ArrayValue(Nulls(0, MAX_INT + 1)), ArrayValue(Nil);
      NullsAreWellFormed(0, MAX_INT + 1, most);
      OverflowingSizesAreNotOrdered();
      hide Nulls;
      assert InDomain(big, most, nans) && InDomain(empty, most, nans) && !OrderLaws(big, empty, empty);
    } else if nans {
      var x := RealValue(NaN);
      assert InDomain(x, most, nans) && !OrderLaws(x, x, x);
    } else {
      forall a, b, c | InDomain(a, most, nans) && InDomain(b, most, nans) && InDomain(c, most, nans) ensures OrderLaws(a, b, c) {
        FewerEntries(a, most, MAX_INT);
        FewerEntries(b, most, MAX_INT);
        FewerEntries(c, most, MAX_INT);
        OrdinaryLaws(a, b, c);
      }
    }
  }
}
