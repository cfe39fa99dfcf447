/** tb64xdec: the table-driven decoder, which checks only some of the groups it decodes. */
module Base64Decoder {
  import opened Base64

  const NDX := 128
  const OVX := 4

  /** The four lookup tables: the bits a character contributes at each place of its group, or all ones. */
  function Table0(c: bv8): bv32 { if InAlphabet(c) then Place0(Value(c)) else INVALID }
  function Table1(c: bv8): bv32 { if InAlphabet(c) then Place1(Value(c)) else INVALID }
  function Table2(c: bv8): bv32 { if InAlphabet(c) then Place2(Value(c)) else INVALID }
  function Table3(c: bv8): bv32 { if InAlphabet(c) then Place3(Value(c)) else INVALID }

  function Place0(v: bv32): bv32 { v << 2 }
  function Place1(v: bv32): bv32 { (v >> 4) | ((v & 15) << 12) }
  function Place2(v: bv32): bv32 { ((v >> 2) << 8) | ((v & 3) << 22) }
  function Place3(v: bv32): bv32 { v << 16 }

  /** DU32 */
  function Lookup(u: bv32): bv32 {
    Or4(Table0(Byte(u, 0)), Table1(Byte(u, 1)), Table2(Byte(u, 2)), Table3(Byte(u, 3)))
  }

  function Or(x: bv32, y: bv32): bv32 { x | y }

  function Or4(x0: bv32, x1: bv32, x2: bv32, x3: bv32): bv32 { x0 | x1 | x2 | x3 }

  /** The accumulator is all ones once something invalid went in, and below 2^24 until then. */
  ghost predicate Tracks(cu: bv32, bad: bool) {
    if bad then cu == INVALID else cu < 0x100_0000
  }

  lemma TracksOr(x: bv32, y: bv32, badX: bool, badY: bool)
    requires Tracks(x, badX) && Tracks(y, badY)
    ensures Tracks(Or(x, y), badX || badY)
  {
  }

  /** Whether the first `n` of four characters are in the alphabet. */
  ghost predicate ValidCount(c0: bv8, c1: bv8, c2: bv8, c3: bv8, n: nat) {
    InAlphabet(c0) && (n >= 2 ==> InAlphabet(c1)) && (n >= 3 ==> InAlphabet(c2)) && (n >= 4 ==> InAlphabet(c3))
  }

  /** The group the first `n` of four characters stand for. */
  ghost function JoinedCount(c0: bv8, c1: bv8, c2: bv8, c3: bv8, n: nat): bv32 {
    Joined(Value(c0), if n >= 2 then Value(c1) else 0, if n >= 3 then Value(c2) else 0, if n >= 4 then Value(c3) else 0)
  }

  /** The word the tables give for the first `n` of four characters. */
  function TableWord(c0: bv8, c1: bv8, c2: bv8, c3: bv8, n: nat): bv32 {
    if n >= 4 then Or4(Table0(c0), Table1(c1), Table2(c2), Table3(c3))
    else if n == 3 then Or(Or(Table0(c0), Table1(c1)), Table2(c2))
    else if n == 2 then Or(Table0(c0), Table1(c1))
    else Table0(c0)
  }

  lemma AlphabetValue(c: bv8)
    ensures InAlphabet(c) ==> ValueOrZero(c) == Value(c) && Value(c) < 64
    ensures ValueOrZero(PAD) == 0
  {
  }

  lemma TableTracks(c: bv8)
    ensures Tracks(Table0(c), !InAlphabet(c)) && Tracks(Table1(c), !InAlphabet(c))
    ensures Tracks(Table2(c), !InAlphabet(c)) && Tracks(Table3(c), !InAlphabet(c))
  {
    AlphabetValue(c);
    if InAlphabet(c) { PlaceRange(Value(c)); }
    hide Value, ValueOrZero, InAlphabet, Place0, Place1, Place2, Place3;
  }

  lemma PlaceRange(v: bv32)
    requires v < 64
    ensures Place0(v) < 0x100_0000 && Place1(v) < 0x100_0000 && Place2(v) < 0x100_0000 && Place3(v) < 0x100_0000
  {
  }

  lemma TracksOr4(x0: bv32, x1: bv32, x2: bv32, x3: bv32, bad0: bool, bad1: bool, bad2: bool, bad3: bool)
    requires Tracks(x0, bad0) && Tracks(x1, bad1) && Tracks(x2, bad2) && Tracks(x3, bad3)
    ensures Tracks(Or4(x0, x1, x2, x3), bad0 || bad1 || bad2 || bad3)
    ensures Tracks(Or(Or(x0, x1), x2), bad0 || bad1 || bad2) && Tracks(Or(x0, x1), bad0 || bad1)
  {
  }

  lemma WordTracks(c0: bv8, c1: bv8, c2: bv8, c3: bv8, n: nat)
    ensures Tracks(TableWord(c0, c1, c2, c3, n), !ValidCount(c0, c1, c2, c3, n))
  {
    hide Table0, Table1, Table2, Table3, Or4, Or, InAlphabet, Tracks;
    TableTracks(c0);
    TableTracks(c1);
    TableTracks(c2);
    TableTracks(c3);
    TracksOr4(Table0(c0), Table1(c1), Table2(c2), Table3(c3), !InAlphabet(c0), !InAlphabet(c1), !InAlphabet(c2), !InAlphabet(c3));
  }

  /** The low `n` bytes of the word are the first `n` of the group. */
  ghost predicate SameBytes(w: bv32, group: bv32, n: nat) {
    (n >= 1 ==> Byte(w, 0) == Octet(group, 0)) && (n >= 2 ==> Byte(w, 1) == Octet(group, 1))
    && (n >= 3 ==> Byte(w, 2) == Octet(group, 2))
  }

  /** The places of the tables put the bytes of the group in memory order. */
  lemma PlacesJoin(v0: bv32, v1: bv32, v2: bv32, v3: bv32)
    requires v0 < 64 && v1 < 64 && v2 < 64 && v3 < 64
    ensures SameBytes(Or4(Place0(v0), Place1(v1), Place2(v2), Place3(v3)), Joined(v0, v1, v2, v3), 3)
  {
  }

  /** Missing characters count as zero bits. */
  lemma FewPlacesJoin(v0: bv32, v1: bv32, v2: bv32)
    requires v0 < 64 && v1 < 64 && v2 < 64
    ensures SameBytes(Or(Or(Place0(v0), Place1(v1)), Place2(v2)), Joined(v0, v1, v2, 0), 2)
    ensures SameBytes(Or(Place0(v0), Place1(v1)), Joined(v0, v1, 0, 0), 1)
    ensures SameBytes(Place0(v0), Joined(v0, 0, 0, 0), 1)
  {
  }

  /** A single character still gives one byte. */
  function BytesOf(n: nat): nat { if n >= 4 then 3 else if n == 3 then 2 else 1 }

  lemma WordDecodes(c0: bv8, c1: bv8, c2: bv8, c3: bv8, n: nat)
    requires ValidCount(c0, c1, c2, c3, n) && 1 <= n <= 4
    ensures SameBytes(TableWord(c0, c1, c2, c3, n), JoinedCount(c0, c1, c2, c3, n), BytesOf(n))
  {
    hide Value, ValueOrZero, InAlphabet, Place0, Place1, Place2, Place3, Joined, Or4, Or, SameBytes;
    AlphabetValue(c0);
    AlphabetValue(c1);
    AlphabetValue(c2);
    AlphabetValue(c3);
    if n == 4 {
      PlacesJoin(Value(c0), Value(c1), Value(c2), Value(c3));
    } else {
      FewPlacesJoin(Value(c0), if n >= 2 then Value(c1) else 0, if n >= 3 then Value(c2) else 0);
    }
  }

  /** The word the decoder computes for group `g`. */
  function GroupWord(t: seq<bv8>, g: nat): bv32
    requires WholeGroups(t) && g < |t| / 4
  {
    TableWord(t[4 * g], t[4 * g + 1], t[4 * g + 2], t[4 * g + 3], GroupCount(t, g))
  }

  /** Group `g`, character by character. */
  lemma GroupParts(t: seq<bv8>, g: nat)
    requires WholeGroups(t) && g < |t| / 4
    ensures ValidGroup(t, g) <==> ValidCount(t[4 * g], t[4 * g + 1], t[4 * g + 2], t[4 * g + 3], GroupCount(t, g))
    ensures ValidGroup(t, g) ==>
              GroupOf(t, g) == JoinedCount(t[4 * g], t[4 * g + 1], t[4 * g + 2], t[4 * g + 3], GroupCount(t, g))
  {
    hide Joined, Value, ValueOrZero, InAlphabet;
    AlphabetValue(t[4 * g]);
    AlphabetValue(t[4 * g + 1]);
    AlphabetValue(t[4 * g + 2]);
    AlphabetValue(t[4 * g + 3]);
  }

  lemma GroupTracks(t: seq<bv8>, g: nat)
    requires WholeGroups(t) && g < |t| / 4
    ensures Tracks(GroupWord(t, g), !ValidGroup(t, g))
  {
    hide TableWord, Tracks, ValidGroup, ValidCount, GroupCount;
    GroupParts(t, g);
    WordTracks(t[4 * g], t[4 * g + 1], t[4 * g + 2], t[4 * g + 3], GroupCount(t, g));
  }

  /** The low bytes of a group's word are the bytes the group decodes to. */
  ghost predicate Holds(t: seq<bv8>, g: nat, w: bv32)
    requires WholeGroups(t) && g < |t| / 4
  {
    && (3 * g < DecodedLength(t) ==> Byte(w, 0) == ByteAt(t, 3 * g))
    && (3 * g + 1 < DecodedLength(t) ==> Byte(w, 1) == ByteAt(t, 3 * g + 1))
    && (3 * g + 2 < DecodedLength(t) ==> Byte(w, 2) == ByteAt(t, 3 * g + 2))
  }

  lemma HoldsFrom(t: seq<bv8>, g: nat, w: bv32, n: nat)
    requires WholeGroups(t) && g < |t| / 4 && SameBytes(w, GroupOf(t, g), n)
    requires n < 3 ==> DecodedLength(t) <= 3 * g + n
    ensures Holds(t, g, w)
  {
    hide Byte, ByteAt, Octet, GroupOf, DecodedLength;
    if 3 * g < DecodedLength(t) { ByteOfGroup(t, g, 0); }
    if 3 * g + 1 < DecodedLength(t) { ByteOfGroup(t, g, 1); }
    if 3 * g + 2 < DecodedLength(t) { ByteOfGroup(t, g, 2); }
  }

  lemma GroupDecodes(t: seq<bv8>, g: nat)
    requires WholeGroups(t) && g < |t| / 4 && ValidGroup(t, g)
    ensures Holds(t, g, GroupWord(t, g))
  {
    hide TableWord, ValidGroup, ValidCount, JoinedCount, GroupOf, SameBytes, Holds, LastCount;
    GroupParts(t, g);
    GroupLength(t, g);
    WordDecodes(t[4 * g], t[4 * g + 1], t[4 * g + 2], t[4 * g + 3], GroupCount(t, g));
    HoldsFrom(t, g, GroupWord(t, g), BytesOf(GroupCount(t, g)));
  }

  lemma GroupLength(t: seq<bv8>, g: nat)
    requires WholeGroups(t) && g < |t| / 4
    ensures 1 <= GroupCount(t, g) <= 4 && (BytesOf(GroupCount(t, g)) < 3 ==> DecodedLength(t) <= 3 * g + BytesOf(GroupCount(t, g)))
    ensures g + 1 < |t| / 4 ==> GroupCount(t, g) == 4 && 3 * g + 4 <= DecodedLength(t)
  {
  }

  /** The bytes of `s` before `m` decode their group wherever it is valid. */
  ghost predicate Decoded(t: seq<bv8>, s: seq<bv8>, m: nat)
    requires WholeGroups(t) && m <= DecodedLength(t) <= |s|
  {
    forall k: nat :: k < m && ValidGroup(t, k / 3) ==> s[k] == ByteAt(t, k)
  }

  /** `Decoded`, when byte `m` itself may hold the spill of a four-byte store, and nothing after it has changed. */
  ghost predicate Progress(t: seq<bv8>, before: seq<bv8>, out: array<bv8>, m: nat)
    requires WholeGroups(t)
    reads out
  {
    && |before| == out.Length && m <= DecodedLength(t) <= out.Length && Decoded(t, out[..], m)
    && (forall k :: m < k < out.Length ==> out[k] == before[k])
  }

  lemma DecodedStep(t: seq<bv8>, s: seq<bv8>, s': seq<bv8>, g: nat, upTo: nat, w: bv32)
    requires WholeGroups(t) && g < |t| / 4 && 3 * g < upTo <= DecodedLength(t) <= |s| == |s'| && upTo <= 3 * g + 3
    requires Decoded(t, s, 3 * g) && s[..3 * g] == s'[..3 * g]
    requires ValidGroup(t, g) ==> Holds(t, g, w)
    requires s'[3 * g] == Byte(w, 0) && (3 * g + 1 < upTo ==> s'[3 * g + 1] == Byte(w, 1))
    requires 3 * g + 2 < upTo ==> s'[3 * g + 2] == Byte(w, 2)
    ensures Decoded(t, s', upTo)
  {
    hide Byte, ByteAt, ValidGroup, DecodedLength;
    forall k: nat | k < upTo && ValidGroup(t, k / 3) ensures s'[k] == ByteAt(t, k) {
      if k < 3 * g { assert s[..3 * g][k] == s'[..3 * g][k]; } else { assert k / 3 == g; }
    }
  }

  /** Group `g` is complete: another one follows it. */
  ghost predicate Inner(t: seq<bv8>, g: nat) { WholeGroups(t) && g + 1 < |t| / 4 }

  lemma LoadedWord(t: seq<bv8>, g: nat)
    requires Inner(t, g)
    ensures Lookup(Load(t, 4 * g)) == GroupWord(t, g)
  {
    hide Table0, Table1, Table2, Table3, Byte, Word, Or4, LastCount;
    WordBytes(t[4 * g], t[4 * g + 1], t[4 * g + 2], t[4 * g + 3]);
  }

  /** Stores the three bytes of an inner group, and a fourth that the next store overwrites. */
  method StoreGroup(t: seq<bv8>, ghost before: seq<bv8>, out: array<bv8>, ghost g: nat, op: nat, w: bv32)
    requires Inner(t, g) && op == 3 * g && w == GroupWord(t, g)
    requires Progress(t, before, out, op)
    modifies out
    ensures Progress(t, before, out, op + 3)
  {
    if ValidGroup(t, g) { GroupDecodes(t, g); }
    GroupLength(t, g);
    hide GroupWord, Byte, ValidGroup, DecodedLength, GroupCount, Decoded, Holds;
    ghost var was := out[..];
    Store(out, op, w);
    DecodedStep(t, was, out[..], g, op + 3, w);
  }

  /** Ip and op stand before group `g`, and the two registers hold the text's next eight characters. */
  ghost predicate Ahead(t: seq<bv8>, before: seq<bv8>, out: array<bv8>, g: nat, ip: nat, op: nat, ux: bv32, vx: bv32)
    reads out
  {
    && Inner(t, g) && ip == 4 * g && op == 3 * g && Progress(t, before, out, op)
    && ux == Load(t, ip) && vx == Load(t, ip + 4)
  }

  /** DI32(n), and DI32C(n), which returns the first group's word for the accumulator. */
  method DecodeStep(t: seq<bv8>, ghost before: seq<bv8>, out: array<bv8>, ghost g: nat, ip: nat, op: nat, n: nat, ux: bv32, vx: bv32)
      returns (u: bv32, v: bv32, checked: bv32)
    requires WholeGroups(t) && g + 2 * n + 4 <= |t| / 4 && ip == 4 * g && op == 3 * g
    requires ux == Load(t, ip + 8 * n) && vx == Load(t, ip + 8 * n + 4)
    requires Progress(t, before, out, op + 6 * n)
    modifies out
    ensures Progress(t, before, out, op + 6 * n + 6)
    ensures u == Load(t, ip + 8 * n + 8) && v == Load(t, ip + 8 * n + 12)
    ensures Tracks(checked, !ValidGroup(t, g + 2 * n))
  {
    hide Progress, Load, Lookup, Tracks, ValidGroup, GroupWord;
    checked := Lookup(ux);
    GroupTracks(t, g + 2 * n);
    LoadedWord(t, g + 2 * n);
    LoadedWord(t, g + 2 * n + 1);
    u := Load(t, ip + 8 + n * 8);
    StoreGroup(t, before, out, g + 2 * n, op + n * 6, checked);
    v := Load(t, ip + 8 + n * 8 + 4);
    StoreGroup(t, before, out, g + 2 * n + 1, op + n * 6 + 3, Lookup(vx));
  }

  /** The first group no unrolled phase decodes: always two or three groups before the end of a longer text. */
  function TailStart(groups: nat): nat { if groups <= 2 then 0 else (groups - 2) / 2 * 2 }

  /** The groups whose validity reaches the accumulator. */
  predicate Checked(groups: nat, g: nat) {
    TailStart(groups) <= g < groups || (g % 32 == 0 && g + 33 < groups)
  }

  /** A checked group before `upTo` is invalid. */
  ghost predicate BadBefore(t: seq<bv8>, upTo: nat)
    requires WholeGroups(t) && upTo <= |t| / 4
  {
    exists g: nat :: g < upTo && Checked(|t| / 4, g) && !ValidGroup(t, g)
  }

  /** One turn of the widest loop: sixteen steps, of which only the very first group is checked. */
  method DecodeBlock(t: seq<bv8>, ghost before: seq<bv8>, out: array<bv8>, ghost g: nat, ip: nat, op: nat, ux: bv32, vx: bv32)
      returns (u: bv32, v: bv32, checked: bv32)
    requires Ahead(t, before, out, g, ip, op, ux, vx) && g + 34 <= |t| / 4
    modifies out
    ensures Ahead(t, before, out, g + 32, ip + NDX, op + 96, u, v)
    ensures Tracks(checked, !ValidGroup(t, g))
  {
    hide Progress, Load, Tracks, ValidGroup;
    u, v, checked := DecodeStep(t, before, out, g, ip, op, 0, ux, vx);
    var skipped;
    u, v, skipped := DecodeStep(t, before, out, g, ip, op, 1, u, v);
    u, v, skipped := DecodeStep(t, before, out, g, ip, op, 2, u, v);
    u, v, skipped := DecodeStep(t, before, out, g, ip, op, 3, u, v);
    u, v, skipped := DecodeStep(t, before, out, g, ip, op, 4, u, v);
    u, v, skipped := DecodeStep(t, before, out, g, ip, op, 5, u, v);
    u, v, skipped := DecodeStep(t, before, out, g, ip, op, 6, u, v);
    u, v, skipped := DecodeStep(t, before, out, g, ip, op, 7, u, v);
    u, v, skipped := DecodeStep(t, before, out, g, ip, op, 8, u, v);
    u, v, skipped := DecodeStep(t, before, out, g, ip, op, 9, u, v);
    u, v, skipped := DecodeStep(t, before, out, g, ip, op, 10, u, v);
    u, v, skipped := DecodeStep(t, before, out, g, ip, op, 11, u, v);
    u, v, skipped := DecodeStep(t, before, out, g, ip, op, 12, u, v);
    u, v, skipped := DecodeStep(t, before, out, g, ip, op, 13, u, v);
    u, v, skipped := DecodeStep(t, before, out, g, ip, op, 14, u, v);
    u, v, skipped := DecodeStep(t, before, out, g, ip, op, 15, u, v);
  }

  lemma BlockStartChecked(groups: nat, q: nat)
    requires 32 * q + 34 <= groups
    ensures Checked(groups, 32 * q)
  {
  }

  lemma BlockRestUnchecked(groups: nat, q: nat, k: nat)
    requires 32 * q + 34 <= groups && 32 * q < k < 32 * q + 32
    ensures !Checked(groups, k)
  {
    TailBound(groups, 16 * q + 16);
    hide TailStart;
    NotMultiple(q, k);
  }

  /** Of the groups of block `q` only the first is checked. */
  lemma BadBlock(t: seq<bv8>, q: nat)
    requires WholeGroups(t) && 32 * q + 34 <= |t| / 4
    ensures BadBefore(t, 32 * q + 32) <==> BadBefore(t, 32 * q) || !ValidGroup(t, 32 * q)
  {
    hide Checked, ValidGroup, WholeGroups;
    BlockStartChecked(|t| / 4, q);
    forall k: nat | 32 * q < k < 32 * q + 32 ensures !Checked(|t| / 4, k) { BlockRestUnchecked(|t| / 4, q, k); }
  }

  lemma NotMultiple(q: nat, k: nat)
    requires 32 * q < k < 32 * q + 32
    ensures k % 32 != 0
  {
  }

  lemma TailBound(groups: nat, h: nat)
    requires 2 * h + 2 <= groups
    ensures 2 * h <= TailStart(groups)
  {
  }

  lemma UncheckedPhase(groups: nat, start: nat, k: nat)
    requires groups <= start + 33 && start <= k < TailStart(groups)
    ensures !Checked(groups, k)
  {
  }

  /** Between the blocks and the tail nothing is checked. */
  lemma BadPhase(t: seq<bv8>, start: nat, g: nat)
    requires WholeGroups(t) && start <= g && |t| / 4 <= start + 33 && g % 2 == 0 && g + 2 <= |t| / 4
    ensures BadBefore(t, g) <==> BadBefore(t, start)
  {
    hide Checked, ValidGroup, WholeGroups, TailStart;
    TailBound(|t| / 4, g / 2);
    forall k: nat | start <= k < g ensures !Checked(|t| / 4, k) { UncheckedPhase(|t| / 4, start, k); }
  }

  lemma BadOne(t: seq<bv8>, g: nat)
    requires WholeGroups(t) && TailStart(|t| / 4) <= g < |t| / 4
    ensures BadBefore(t, g + 1) <==> BadBefore(t, g) || !ValidGroup(t, g)
  {
    assert Checked(|t| / 4, g);
    hide Checked, ValidGroup, WholeGroups, TailStart;
  }

  /** The 128-character phase. */
  method DecodeBlocks(t: seq<bv8>, ghost before: seq<bv8>, out: array<bv8>)
      returns (ghost g: nat, ip: nat, op: nat, ux: bv32, vx: bv32, cu: bv32)
    requires WholeGroups(t) && |t| >= 8 + OVX && Progress(t, before, out, 0)
    modifies out
    ensures Ahead(t, before, out, g, ip, op, ux, vx) && |t| / 4 <= g + 33 && g % 2 == 0
    ensures Tracks(cu, BadBefore(t, g))
  {
    hide Progress, Load, Tracks, ValidGroup, BadBefore, Or, Checked, TailStart;
    ip, op, g, cu := 0, 0, 0, 0;
    ghost var q := 0;
    ux, vx := Load(t, ip), Load(t, ip + 4);
    NothingBad(t);
    while ip < |t| - (NDX + OVX)
      invariant Ahead(t, before, out, g, ip, op, ux, vx) && g + 2 <= |t| / 4 && g == 32 * q
      invariant Tracks(cu, BadBefore(t, g))
    {
      var checked;
      ux, vx, checked := DecodeBlock(t, before, out, g, ip, op, ux, vx);
      TracksOr(cu, checked, BadBefore(t, g), !ValidGroup(t, g));
      BadBlock(t, q);
      cu := Or(cu, checked);
      ip, op, g := ip + NDX, op + NDX / 4 * 3, g + 32;
      q := q + 1;
    }
  }

  lemma NothingBad(t: seq<bv8>)
    requires WholeGroups(t)
    ensures Tracks(0, BadBefore(t, 0))
  {
  }

  lemma TailReached(groups: nat, g: nat)
    requires 3 <= groups && g % 2 == 0 && g + 2 <= groups <= g + 3
    ensures g == TailStart(groups)
  {
  }

  /** One turn of the middle loop. */
  method DecodeTwo(t: seq<bv8>, ghost before: seq<bv8>, out: array<bv8>, ghost g: nat, ip: nat, op: nat, ux: bv32, vx: bv32)
      returns (u: bv32, v: bv32)
    requires Ahead(t, before, out, g, ip, op, ux, vx) && g + 6 <= |t| / 4
    modifies out
    ensures Ahead(t, before, out, g + 4, ip + 16, op + 12, u, v)
  {
    hide Progress, Load, Tracks, ValidGroup;
    var skipped;
    u, v, skipped := DecodeStep(t, before, out, g, ip, op, 0, ux, vx);
    u, v, skipped := DecodeStep(t, before, out, g, ip, op, 1, u, v);
  }

  /** The 16-character phase: nothing after the blocks is checked. */
  method DecodePairs(t: seq<bv8>, ghost before: seq<bv8>, out: array<bv8>)
      returns (ghost g: nat, ip: nat, op: nat, ux: bv32, vx: bv32, cu: bv32)
    requires WholeGroups(t) && |t| >= 8 + OVX && Progress(t, before, out, 0)
    modifies out
    ensures Ahead(t, before, out, g, ip, op, ux, vx) && |t| / 4 <= g + 5 && g % 2 == 0
    ensures Tracks(cu, BadBefore(t, g))
  {
    hide Progress, Load, Tracks, ValidGroup, BadBefore, Or, Checked, TailStart;
    g, ip, op, ux, vx, cu := DecodeBlocks(t, before, out);
    ghost var start := g;
    while ip < |t| - (16 + OVX)
      invariant Ahead(t, before, out, g, ip, op, ux, vx) && g >= start && g % 2 == 0
    {
      ux, vx := DecodeTwo(t, before, out, g, ip, op, ux, vx);
      ip, op, g := ip + 16, op + 16 / 4 * 3, g + 4;
    }
    BadPhase(t, start, g);
  }

  /** The three unrolled phases. */
  method DecodeUnrolled(t: seq<bv8>, ghost before: seq<bv8>, out: array<bv8>) returns (ip: nat, op: nat, cu: bv32)
    requires WholeGroups(t) && |t| >= 8 + OVX && Progress(t, before, out, 0)
    modifies out
    ensures var g := TailStart(|t| / 4); ip == 4 * g && op == 3 * g && Progress(t, before, out, op) && Tracks(cu, BadBefore(t, g))
  {
    hide Progress, Load, Tracks, ValidGroup, BadBefore, Or, Checked, TailStart;
    ghost var g;
    var ux, vx;
    g, ip, op, ux, vx, cu := DecodePairs(t, before, out);
    ghost var start := g;
    if ip < |t| - (8 + OVX) {
      var skipped;
      ux, vx, skipped := DecodeStep(t, before, out, g, ip, op, 0, ux, vx);
      ip, op, g := ip + 8, op + 8 / 4 * 3, g + 2;
    }
    TailReached(|t| / 4, g);
    BadPhase(t, start, g);
  }

  /** The remaining inner groups, each of them checked. */
  method DecodeSingles(t: seq<bv8>, ghost before: seq<bv8>, out: array<bv8>, start: nat, op0: nat, cu0: bv32)
      returns (ip: nat, op: nat, cu: bv32)
    requires WholeGroups(t)
    requires var g := TailStart(|t| / 4); start == 4 * g && op0 == 3 * g && Progress(t, before, out, op0) && Tracks(cu0, BadBefore(t, g))
    modifies out
    ensures var g := |t| / 4 - 1; ip == 4 * g && op == 3 * g && Progress(t, before, out, op) && Tracks(cu, BadBefore(t, g))
  {
    hide Progress, Load, Lookup, Tracks, ValidGroup, BadBefore, TailStart, Or, GroupWord;
    ip, op, cu := start, op0, cu0;
    ghost var g := TailStart(|t| / 4);
    TailStartInner(t);
    while ip < |t| - 4
      invariant TailStart(|t| / 4) <= g < |t| / 4 && ip == 4 * g && op == 3 * g
      invariant Progress(t, before, out, op) && Tracks(cu, BadBefore(t, g))
    {
      var u := Lookup(Load(t, ip));
      GroupTracks(t, g);
      LoadedWord(t, g);
      TracksOr(cu, u, BadBefore(t, g), !ValidGroup(t, g));
      BadOne(t, g);
      StoreGroup(t, before, out, g, op, u);
      cu := Or(cu, u);
      ip, op, g := ip + 4, op + 3, g + 1;
    }
  }

  lemma TailStartInner(t: seq<bv8>)
    requires WholeGroups(t)
    ensures TailStart(|t| / 4) < |t| / 4
  {
  }

  /** Some checked group of the text is invalid. */
  ghost predicate Rejected(t: seq<bv8>)
    requires WholeGroups(t)
  {
    BadBefore(t, |t| / 4)
  }

  /** How many of the last four characters are not padding. */
  method CountLast(t: seq<bv8>, ip: nat) returns (l: nat)
    requires WholeGroups(t) && ip == |t| - 4
    ensures l == LastCount(t)
  {
    l := 4;
    if t[ip + 3] == PAD {
      l := 3;
      if t[ip + 2] == PAD {
        l := 2;
        if t[ip + 1] == PAD { l := 1; }
      }
    }
  }

  /** The last one to four characters, without a spill. */
  method PutLast(t: seq<bv8>, out: array<bv8>, ip: nat, start: nat, l: nat) returns (op: nat, u: bv32)
    requires WholeGroups(t) && ip == |t| - 4 && start == 3 * (|t| / 4 - 1) && l == LastCount(t) && DecodedLength(t) <= out.Length
    modifies out
    ensures start < op == DecodedLength(t) <= start + 3 && u == LastLookup(t)
    ensures out[start] == Byte(u, 0)
    ensures (start + 1 < op ==> out[start + 1] == Byte(u, 1)) && (start + 2 < op ==> out[start + 2] == Byte(u, 2))
    ensures forall k :: 0 <= k < out.Length && !(start <= k < op) ==> out[k] == old(out[k])
  {
    hide Table0, Table1, Table2, Table3, Byte, Or, Or4, Word;
    WordBytes(t[ip], t[ip + 1], t[ip + 2], t[ip + 3]);
    op := start;
    if l == 4 {
      u := Lookup(Load(t, ip));
      out[op], out[op + 1], out[op + 2] := Byte(u, 0), Byte(u, 1), Byte(u, 2);
      op := op + 3;
    } else if l == 3 {
      u := Or(Or(Table0(t[ip]), Table1(t[ip + 1])), Table2(t[ip + 2]));
      out[op], out[op + 1] := Byte(u, 0), Byte(u, 1);
      op := op + 2;
    } else if l == 2 {
      u := Or(Table0(t[ip]), Table1(t[ip + 1]));
      out[op] := Byte(u, 0);
      op := op + 1;
    } else {
      u := Table0(t[ip]);
      out[op] := Byte(u, 0);
      op := op + 1;
    }
  }

  function LastLookup(t: seq<bv8>): bv32
    requires WholeGroups(t)
  {
    TableWord(t[|t| - 4], t[|t| - 3], t[|t| - 2], t[|t| - 1], LastCount(t))
  }

  /** What the last group's word says of the accumulator and the output. */
  lemma LastGroup(t: seq<bv8>, cu: bv32)
    requires WholeGroups(t) && Tracks(cu, BadBefore(t, |t| / 4 - 1))
    ensures Tracks(Or(cu, LastLookup(t)), Rejected(t))
  {
    hide Tracks, ValidGroup, Or, BadBefore, LastLookup, GroupWord, Rejected;
    LastWord(t);
    LastBad(t);
    GroupTracks(t, |t| / 4 - 1);
    TracksOr(cu, LastLookup(t), BadBefore(t, |t| / 4 - 1), !ValidGroup(t, |t| / 4 - 1));
  }

  lemma LastHolds(t: seq<bv8>)
    requires WholeGroups(t) && ValidGroup(t, |t| / 4 - 1)
    ensures Holds(t, |t| / 4 - 1, LastLookup(t))
  {
    hide ValidGroup, LastLookup, GroupWord, Holds;
    LastWord(t);
    GroupDecodes(t, |t| / 4 - 1);
  }

  lemma LastBad(t: seq<bv8>)
    requires WholeGroups(t)
    ensures Rejected(t) <==> BadBefore(t, |t| / 4 - 1) || !ValidGroup(t, |t| / 4 - 1)
  {
    hide BadBefore, ValidGroup, TailStart;
    TailStartInner(t);
    BadOne(t, |t| / 4 - 1);
  }

  lemma LastWord(t: seq<bv8>)
    requires WholeGroups(t)
    ensures GroupWord(t, |t| / 4 - 1) == LastLookup(t)
  {
    hide TableWord, LastCount;
    assert 4 * (|t| / 4 - 1) == |t| - 4;
  }

  method DecodeLast(t: seq<bv8>, ghost before: seq<bv8>, out: array<bv8>, ip: nat, start: nat, cu0: bv32) returns (op: nat, cu: bv32)
    requires WholeGroups(t) && ip == |t| - 4 && start == 3 * (|t| / 4 - 1)
    requires Progress(t, before, out, start) && Tracks(cu0, BadBefore(t, |t| / 4 - 1))
    modifies out
    ensures op == DecodedLength(t) && Tracks(cu, Rejected(t))
    ensures op <= out.Length && Decoded(t, out[..], op)
    ensures forall k :: op <= k < out.Length ==> out[k] == before[k]
  {
    hide LastLookup, Byte, Tracks, ValidGroup, Or, BadBefore, DecodedLength, LastCount, Decoded, Holds;
    LastGroup(t, cu0);
    if ValidGroup(t, |t| / 4 - 1) { LastHolds(t); }
    var l := CountLast(t, ip);
    var u;
    ghost var was := out[..];
    op, u := PutLast(t, out, ip, start, l);
    cu := Or(cu0, u);
    DecodedStep(t, was, out[..], |t| / 4 - 1, op, u);
  }

  /**
   * tb64xdec: every group that is valid is decoded, whatever the others hold; nothing beyond the decoded length is
   * written; the result is 0 exactly for a text that is empty, not of whole groups, or invalid in a checked group.
   */
  method Tb64xdec(t: seq<bv8>, out: array<bv8>) returns (n: nat)
    requires WholeGroups(t) ==> DecodedLength(t) <= out.Length
    modifies out
    ensures !WholeGroups(t) ==> n == 0 && out[..] == old(out[..])
    ensures WholeGroups(t) ==> n == if Rejected(t) then 0 else DecodedLength(t)
    ensures WholeGroups(t) ==> forall k: nat :: k < DecodedLength(t) && ValidGroup(t, k / 3) ==> out[k] == ByteAt(t, k)
    ensures WholeGroups(t) ==> forall k: nat :: k < DecodedLength(t) && ValidGroup(t, k / 3) ==> out[k] as bv32 == StandardByte(t, k)
    ensures WholeGroups(t) ==> out[DecodedLength(t)..] == old(out[DecodedLength(t)..])
  {
    if t == [] || |t| % 4 != 0 { return 0; }
    hide ValidGroup, ByteAt, StandardByte, Tracks, Rejected, DecodedLength, LastCount;
    ghost var before := out[..];
    DecodingIsStandard(t);
    var ip, op, cu := 0, 0, 0;
    NothingBad(t);
    if |t| >= 8 + OVX { ip, op, cu := DecodeUnrolled(t, before, out); }
    ip, op, cu := DecodeSingles(t, before, out, ip, op, cu);
    op, cu := DecodeLast(t, before, out, ip, op, cu);
    TracksMeans(cu, Rejected(t));
    return if cu == INVALID then 0 else op;
  }

  lemma TracksMeans(cu: bv32, bad: bool)
    requires Tracks(cu, bad)
    ensures cu == INVALID <==> bad
  {
  }

  /** No character of the alphabet, and not one of the three last, all `=` from there on. */
  ghost predicate BadCharacter(t: seq<bv8>, j: nat)
    requires j < |t|
  {
    !InAlphabet(t[j]) && !(j + 3 >= |t| && forall i :: j <= i < |t| ==> t[i] as char == '=')
  }

  lemma GroupIsValid(t: seq<bv8>, g: nat)
    requires WholeGroups(t) && g < |t| / 4
    ensures !ValidGroup(t, g) <==> exists j: nat :: j / 4 == g && BadCharacter(t, j)
  {
    hide InAlphabet;
    var n := |t|;
    assert LastCount(t) == (if t[n - 1] != PAD then 4 else if t[n - 2] != PAD then 3 else if t[n - 3] != PAD then 2 else 1);
    hide LastCount;
    if !ValidGroup(t, g) {
      var j :| 4 * g <= j < 4 * g + GroupCount(t, g) && !InAlphabet(t[j]);
      assert BadCharacter(t, j);
    }
    if j: nat :| j / 4 == g && BadCharacter(t, j) {
      if j >= 4 * g + GroupCount(t, g) { assert g == n / 4 - 1; }
    }
  }

  /**
   Rejected are the texts with a bad character in the last two groups, or three if their number is odd, or in every 32nd
   group from the first, if at least 33 follow it.
   */
  lemma RejectsExactly(t: seq<bv8>)
    requires WholeGroups(t)
    ensures var n := |t| / 4;
            Rejected(t) <==>
            exists j: nat :: j < |t| && BadCharacter(t, j) && (j / 4 >= n - (if n % 2 == 0 then 2 else 3) || (j / 4 % 32 == 0 && j / 4 + 33 < n))
  {
    hide ValidGroup, BadCharacter;
    var n := |t| / 4;
    forall g: nat | g < n
      ensures Checked(n, g) <==> g >= n - (if n % 2 == 0 then 2 else 3) || (g % 32 == 0 && g + 33 < n)
    {
    }
    if Rejected(t) {
      var g: nat :| g < n && Checked(n, g) && !ValidGroup(t, g);
      GroupIsValid(t, g);
    }
    if j: nat :| j < |t| && BadCharacter(t, j) && (j / 4 >= n - (if n % 2 == 0 then 2 else 3) || (j / 4 % 32 == 0 && j / 4 + 33 < n)) {
      GroupIsValid(t, j / 4);
      assert Checked(n, j / 4);
    }
  }

  /** Three bytes a group, less one or two for the padding at the end. */
  lemma DecodedLengthIs(t: seq<bv8>)
    requires WholeGroups(t)
    ensures var n := |t|;
            DecodedLength(t) == n / 4 * 3 - (if t[n - 1] as char != '=' then 0 else if t[n - 2] as char != '=' then 1 else 2)
  {
  }

  /** Invalid characters can go unnoticed: the first group of a four-group text is never checked. */
  lemma FirstOfFourUnchecked(t: seq<bv8>)
    requires |t| == 16 && forall i :: 8 <= i < 16 ==> InAlphabet(t[i])
    ensures WholeGroups(t) && !Rejected(t) && (!InAlphabet(t[0]) ==> !ValidGroup(t, 0))
  {
    hide InAlphabet;
    assert t[15] != PAD by { NotPadding(t[15]); }
    assert forall g: nat | g < 4 && Checked(4, g) :: g == 2 || g == 3;
    assert LastCount(t) == 4;
  }

  lemma NotPadding(c: bv8)
    requires InAlphabet(c)
    ensures c != PAD
  {
  }

  /** An encoding is never rejected, so decoding it yields its bytes and their number. */
  lemma EncodedIsAccepted(b: seq<bv8>)
    requires b != []
    ensures WholeGroups(Encode(b)) && !Rejected(Encode(b)) && DecodedLength(Encode(b)) == |b|
    ensures forall k: nat :: k < |b| ==> ValidGroup(Encode(b), k / 3) && ByteAt(Encode(b), k) == b[k]
  {
    DecodeEncode(b);
    hide ValidGroup, ByteAt, CharAt;
    forall k: nat | k < |b| ensures ByteAt(Encode(b), k) == b[k] {
      assert Decode(Encode(b))[k] == ByteAt(Encode(b), k);
    }
  }

  /** tb64xdec after tb64xenc gives back every byte string, the empty one included. */
  method EncodeThenDecode(text: seq<bv8>, ghost b: seq<bv8>, out: array<bv8>) returns (n: nat)
    requires text == Encode(b) && |b| <= out.Length
    modifies out
    ensures n == |b| && out[..n] == b && out[n..] == old(out[n..])
  {
    if b != [] { EncodedIsAccepted(b); }
    hide ValidGroup, ByteAt, Rejected, DecodedLength, Encode;
    n := Tb64xdec(text, out);
  }
}
