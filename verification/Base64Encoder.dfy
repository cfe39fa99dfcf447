/** tb64xenc: the table-driven encoder with its look-ahead registers and its 128-, 16- and 8-character steps. */
module Base64Encoder {
  import opened Base64

  const NEX := 128
  const OVX := 12

  /** Two characters in memory order. */
  function Chars(c0: bv8, c1: bv8): bv32 { (c0 as bv32) | ((c1 as bv32) << 8) }

  /** tb64lutxe[i]: the characters of the two six-bit values of `i`. */
  function PairTable(i: bv32): bv32 { Chars(Char(First(i)), Char(Second(i))) }

  function First(i: bv32): bv32 { i >> 6 }
  function Second(i: bv32): bv32 { i & 63 }

  function UpperPair(u: bv32): bv32 { u >> 20 }
  function LowerPair(u: bv32): bv32 { (u >> 8) & 0xfff }
  function Halves(low: bv32, high: bv32): bv32 { (high << 16) | low }

  /** XU32 */
  function PairLookup(u: bv32): bv32 { Halves(PairTable(UpperPair(u)), PairTable(LowerPair(u))) }

  /** SU32 */
  function SingleLookup(u: bv32): bv32 {
    Word(Char((u >> 26) & 63), Char((u >> 20) & 63), Char((u >> 14) & 63), Char((u >> 8) & 63))
  }

  function BigEndian(b: seq<bv8>, i: nat): bv32
    requires i + 4 <= |b|
  {
    Swap(Load(b, i))
  }

  /** The four characters of a 24-bit group, as the word whose bytes they are in memory order. */
  function Quad(group: bv32): bv32 {
    Word(Char(Sextet(group, 0)), Char(Sextet(group, 1)), Char(Sextet(group, 2)), Char(Sextet(group, 3)))
  }

  function TopThree(u: bv32): bv32 { u >> 8 }

  /** XU32 turns a big-endian word into the four characters of its first three bytes. */
  lemma PairLookupEncodes(u: bv32)
    ensures PairLookup(u) == Quad(TopThree(u))
  {
  }

  /** So does SU32. */
  lemma SingleLookupEncodes(u: bv32)
    ensures SingleLookup(u) == Quad(TopThree(u))
  {
  }

  /** The first `m` bytes of `out` are the encoding's first `m` characters; the rest is untouched. */
  ghost predicate Written(b: seq<bv8>, before: seq<bv8>, out: array<bv8>, m: nat)
    reads out
  {
    && |before| == out.Length && m <= EncodedLength(|b|) <= out.Length
    && (forall k :: 0 <= k < m ==> out[k] == CharAt(b, k))
    && (forall k :: m <= k < out.Length ==> out[k] == before[k])
  }

  /** The group of three input bytes at `i`. */
  ghost function GroupAt(b: seq<bv8>, i: nat): bv32
    requires i + 3 <= |b|
  {
    Group(b[i], b[i + 1], b[i + 2])
  }

  lemma QuadChars(b: seq<bv8>, i: nat)
    requires i % 3 == 0 && i + 3 <= |b|
    ensures var op := i / 3 * 4; var w := Quad(GroupAt(b, i));
            && op + 4 <= EncodedLength(|b|)
            && Byte(w, 0) == CharAt(b, op) && Byte(w, 1) == CharAt(b, op + 1)
            && Byte(w, 2) == CharAt(b, op + 2) && Byte(w, 3) == CharAt(b, op + 3)
  {
    var op, g := i / 3 * 4, GroupAt(b, i);
    hide Char, Sextet, Word, Byte, Group;
    WordBytes(Char(Sextet(g, 0)), Char(Sextet(g, 1)), Char(Sextet(g, 2)), Char(Sextet(g, 3)));
    assert op / 4 * 3 == i && (op + 1) / 4 * 3 == i && (op + 2) / 4 * 3 == i && (op + 3) / 4 * 3 == i;
  }

  /** A full group's four characters, stored in one go. */
  method StoreQuad(b: seq<bv8>, ghost before: seq<bv8>, out: array<bv8>, i: nat, op: nat, w: bv32)
    requires i % 3 == 0 && i + 3 <= |b| && 3 * op == 4 * i && w == Quad(GroupAt(b, i))
    requires Written(b, before, out, op)
    modifies out
    ensures Written(b, before, out, op + 4)
  {
    hide Quad, GroupAt, CharAt, Byte, EncodedLength;
    QuadChars(b, i);
    Store(out, op, w);
    assert out[op + 1] == Byte(w, 1) && out[op + 2] == Byte(w, 2) && out[op + 3] == Byte(w, 3);
  }

  lemma LoadedGroup(b: seq<bv8>, i: nat)
    requires i + 4 <= |b|
    ensures TopThree(BigEndian(b, i)) == GroupAt(b, i)
  {
  }

  /** XI32(n): encodes the two groups held in the look-ahead registers and loads the next two. */
  method EncodeStep(b: seq<bv8>, ghost before: seq<bv8>, out: array<bv8>, ip: nat, op: nat, n: nat, u0x: bv32, u1x: bv32)
      returns (u0: bv32, u1: bv32)
    requires ip % 3 == 0 && 3 * op == 4 * ip && ip + 6 * n + 13 <= |b|
    requires u0x == BigEndian(b, ip + 6 * n) && u1x == BigEndian(b, ip + 6 * n + 3)
    requires Written(b, before, out, op + 8 * n)
    modifies out
    ensures Written(b, before, out, op + 8 * n + 8)
    ensures u0 == BigEndian(b, ip + 6 * n + 6) && u1 == BigEndian(b, ip + 6 * n + 9)
  {
    hide Written, BigEndian, PairLookup, Quad, GroupAt, TopThree;
    LoadedGroup(b, ip + 6 * n);
    LoadedGroup(b, ip + 6 * n + 3);
    PairLookupEncodes(u0x);
    PairLookupEncodes(u1x);
    u0, u1 := BigEndian(b, ip + 6 + n * 6), BigEndian(b, ip + 6 + n * 6 + 3);
    StoreQuad(b, before, out, ip + 6 * n, op + n * 8, PairLookup(u0x));
    StoreQuad(b, before, out, ip + 6 * n + 3, op + n * 8 + 4, PairLookup(u1x));
  }

  /** One turn of the widest loop: sixteen steps, 96 bytes to 128 characters. */
  method EncodeBlock(b: seq<bv8>, ghost before: seq<bv8>, out: array<bv8>, ip: nat, op: nat, u0x: bv32, u1x: bv32)
      returns (u0: bv32, u1: bv32)
    requires ip % 3 == 0 && 3 * op == 4 * ip && ip + 103 <= |b|
    requires u0x == BigEndian(b, ip) && u1x == BigEndian(b, ip + 3)
    requires Written(b, before, out, op)
    modifies out
    ensures Written(b, before, out, op + NEX)
    ensures u0 == BigEndian(b, ip + 96) && u1 == BigEndian(b, ip + 99)
  {
    hide Written, BigEndian;
    u0, u1 := EncodeStep(b, before, out, ip, op, 0, u0x, u1x);
    u0, u1 := EncodeStep(b, before, out, ip, op, 1, u0, u1);
    u0, u1 := EncodeStep(b, before, out, ip, op, 2, u0, u1);
    u0, u1 := EncodeStep(b, before, out, ip, op, 3, u0, u1);
    u0, u1 := EncodeStep(b, before, out, ip, op, 4, u0, u1);
    u0, u1 := EncodeStep(b, before, out, ip, op, 5, u0, u1);
    u0, u1 := EncodeStep(b, before, out, ip, op, 6, u0, u1);
    u0, u1 := EncodeStep(b, before, out, ip, op, 7, u0, u1);
    u0, u1 := EncodeStep(b, before, out, ip, op, 8, u0, u1);
    u0, u1 := EncodeStep(b, before, out, ip, op, 9, u0, u1);
    u0, u1 := EncodeStep(b, before, out, ip, op, 10, u0, u1);
    u0, u1 := EncodeStep(b, before, out, ip, op, 11, u0, u1);
    u0, u1 := EncodeStep(b, before, out, ip, op, 12, u0, u1);
    u0, u1 := EncodeStep(b, before, out, ip, op, 13, u0, u1);
    u0, u1 := EncodeStep(b, before, out, ip, op, 14, u0, u1);
    u0, u1 := EncodeStep(b, before, out, ip, op, 15, u0, u1);
  }

  /** What the unrolled phases keep: progress, and the registers that look two groups ahead. */
  ghost predicate Ahead(b: seq<bv8>, before: seq<bv8>, out: array<bv8>, ip: nat, op: nat, u0x: bv32, u1x: bv32)
    reads out
  {
    && ip % 3 == 0 && 3 * op == 4 * ip && ip + 7 <= |b|
    && Written(b, before, out, op) && u0x == BigEndian(b, ip) && u1x == BigEndian(b, ip + 3)
  }

  /** The 128-character phase: every turn still has 103 input bytes to read. */
  method EncodeBlocks(b: seq<bv8>, ghost before: seq<bv8>, out: array<bv8>, outlen: nat)
      returns (ip: nat, op: nat, u0x: bv32, u1x: bv32)
    requires outlen == EncodedLength(|b|) && outlen >= 8 + OVX && Written(b, before, out, 0)
    modifies out
    ensures Ahead(b, before, out, ip, op, u0x, u1x) && op <= outlen - OVX
  {
    hide Written, BigEndian;
    ip, op := 0, 0;
    u0x, u1x := BigEndian(b, ip), BigEndian(b, ip + 3);
    while op <= outlen - (NEX + OVX)
      invariant Ahead(b, before, out, ip, op, u0x, u1x) && op <= outlen - OVX
    {
      u0x, u1x := EncodeBlock(b, before, out, ip, op, u0x, u1x);
      op, ip := op + NEX, ip + NEX / 4 * 3;
    }
  }

  /** One turn of the middle loop: two steps, 12 bytes to 16 characters. */
  method EncodeTwo(b: seq<bv8>, ghost before: seq<bv8>, out: array<bv8>, ip: nat, op: nat, u0x: bv32, u1x: bv32)
      returns (u0: bv32, u1: bv32)
    requires Ahead(b, before, out, ip, op, u0x, u1x) && ip + 19 <= |b|
    modifies out
    ensures Ahead(b, before, out, ip + 12, op + 16, u0, u1)
  {
    hide Written, BigEndian;
    u0, u1 := EncodeStep(b, before, out, ip, op, 0, u0x, u1x);
    u0, u1 := EncodeStep(b, before, out, ip, op, 1, u0, u1);
  }

  /** The 16-character phase. */
  method EncodePairs(b: seq<bv8>, ghost before: seq<bv8>, out: array<bv8>, outlen: nat)
      returns (ip: nat, op: nat, u0x: bv32, u1x: bv32)
    requires outlen == EncodedLength(|b|) && outlen >= 8 + OVX && Written(b, before, out, 0)
    modifies out
    ensures Ahead(b, before, out, ip, op, u0x, u1x) && op <= outlen - OVX
  {
    ip, op, u0x, u1x := EncodeBlocks(b, before, out, outlen);
    hide Written, BigEndian;
    while op <= outlen - (16 + OVX)
      invariant Ahead(b, before, out, ip, op, u0x, u1x) && op <= outlen - OVX
    {
      u0x, u1x := EncodeTwo(b, before, out, ip, op, u0x, u1x);
      op, ip := op + 16, ip + 16 / 4 * 3;
    }
  }

  /** The three unrolled phases; they stop with at least one group left. */
  method EncodeUnrolled(b: seq<bv8>, ghost before: seq<bv8>, out: array<bv8>, outlen: nat) returns (ip: nat, op: nat)
    requires outlen == EncodedLength(|b|) && outlen >= 8 + OVX && Written(b, before, out, 0)
    modifies out
    ensures Written(b, before, out, op)
    ensures ip % 3 == 0 && 3 * op == 4 * ip && ip < |b|
  {
    var u0x, u1x;
    ip, op, u0x, u1x := EncodePairs(b, before, out, outlen);
    hide Written, BigEndian;
    if op <= outlen - (8 + OVX) {
      u0x, u1x := EncodeStep(b, before, out, ip, op, 0, u0x, u1x);
      op, ip := op + 8, ip + 8 / 4 * 3;
    }
  }

  /** EXTAIL: one group at a time, up to the last one. */
  method EncodeSingles(b: seq<bv8>, ghost before: seq<bv8>, out: array<bv8>, outlen: nat, ip: nat, op: nat)
    requires outlen == EncodedLength(|b|) && Written(b, before, out, op)
    requires ip % 3 == 0 && 3 * op == 4 * ip && (ip < |b| || ip == |b| == 0)
    modifies out
    ensures Written(b, before, out, outlen)
  {
    hide Written, BigEndian, PairLookup, Quad, GroupAt, TopThree;
    var ip, op := ip, op;
    while op < outlen - 4
      invariant ip % 3 == 0 && 3 * op == 4 * ip && (ip < |b| || ip == |b| == 0)
      invariant Written(b, before, out, op)
    {
      LoadedGroup(b, ip);
      PairLookupEncodes(BigEndian(b, ip));
      StoreQuad(b, before, out, ip, op, PairLookup(BigEndian(b, ip)));
      op, ip := op + 4, ip + 3;
    }
    EncodeTail(b, before, out, ip, op);
  }

  /** tb64xenc: the output is the encoding of the input, and nothing beyond it is written. */
  method Tb64xenc(b: seq<bv8>, out: array<bv8>) returns (outlen: nat)
    requires EncodedLength(|b|) <= out.Length
    modifies out
    ensures outlen == EncodedLength(|b|) && out[..outlen] == Encode(b)
    ensures forall k :: 0 <= k < outlen ==> out[k] as char == StandardCharacter(b, k)
    ensures out[outlen..] == old(out[outlen..])
  {
    hide CharAt, StandardCharacter;
    ghost var before := out[..];
    EncodingIsStandard(b);
    outlen := EncodedLength(|b|);
    var ip, op := 0, 0;
    if outlen >= 8 + OVX { ip, op := EncodeUnrolled(b, before, out, outlen); }
    EncodeSingles(b, before, out, outlen, ip, op);
    forall k | 0 <= k < outlen ensures out[k] as char == StandardCharacter(b, k) { assert out[k] == Encode(b)[k]; }
  }

  lemma LastChars(b: seq<bv8>, i: nat)
    requires i % 3 == 0 && 1 <= |b| - i <= 2
    ensures var op := i / 3 * 4; var next := ByteOrZero(b, i + 1);
            && op + 4 == EncodedLength(|b|)
            && CharAt(b, op) == Char(((b[i] >> 2) as bv32) & 63)
            && CharAt(b, op + 1) == Char((((b[i] & 3) << 4) as bv32) | (((next & 0xf0) >> 4) as bv32))
            && CharAt(b, op + 2) == (if |b| - i == 2 then Char(((next & 0xf) << 2) as bv32) else PAD)
            && CharAt(b, op + 3) == PAD
  {
    var op := i / 3 * 4;
    var b0, b1 := b[i], ByteOrZero(b, i + 1);
    assert op / 4 * 3 == i && (op + 1) / 4 * 3 == i && (op + 2) / 4 * 3 == i && (op + 3) / 4 * 3 == i;
    SextetsOf(b0, b1);
    hide Char, Group, Sextet;
  }

  lemma SextetsOf(b0: bv8, b1: bv8)
    ensures var g := Group(b0, b1, 0);
            && Sextet(g, 0) == ((b0 >> 2) as bv32) & 63
            && Sextet(g, 1) == (((b0 & 3) << 4) as bv32) | (((b1 & 0xf0) >> 4) as bv32)
            && Sextet(g, 2) == ((b1 & 0xf) << 2) as bv32
  {
  }

  /** ETAIL: the last group, whole or padded. */
  method EncodeTail(b: seq<bv8>, ghost before: seq<bv8>, out: array<bv8>, ip: nat, start: nat)
    requires ip % 3 == 0 && 3 * start == 4 * ip && ip <= |b| <= ip + 3
    requires Written(b, before, out, start)
    modifies out
    ensures Written(b, before, out, EncodedLength(|b|))
  {
    hide Char, Quad, Group, SingleLookup, CharAt, TopThree, TailWord;
    var op := start;
    var l := |b| - ip;
    if l == 3 {
      var u := TailWord(b[ip], b[ip + 1], b[ip + 2]);
      TailGroup(b[ip], b[ip + 1], b[ip + 2]);
      SingleLookupEncodes(u);
      StoreQuad(b, before, out, ip, op, SingleLookup(u));
    } else if l != 0 {
      LastChars(b, ip);
      out[op] := Char(((b[ip] >> 2) as bv32) & 63);
      op := op + 1;
      if l == 2 {
        out[op] := Char((((b[ip] & 3) << 4) as bv32) | (((b[ip + 1] & 0xf0) >> 4) as bv32));
        op := op + 1;
        out[op] := Char(((b[ip + 1] & 0xf) << 2) as bv32);
        op := op + 1;
      } else {
        assert (((b[ip] & 3) << 4) as bv32) | (((0 as bv8 & 0xf0) >> 4) as bv32) == ((b[ip] & 3) << 4) as bv32;
        out[op] := Char(((b[ip] & 3) << 4) as bv32);
        op := op + 1;
        out[op] := PAD;
        op := op + 1;
      }
      out[op] := PAD;
      op := op + 1;
    }
  }

  function TailWord(b0: bv8, b1: bv8, b2: bv8): bv32 { ((b0 as bv32) << 24) | ((b1 as bv32) << 16) | ((b2 as bv32) << 8) }

  lemma TailGroup(b0: bv8, b1: bv8, b2: bv8)
    ensures TopThree(TailWord(b0, b1, b2)) == Group(b0, b1, b2)
  {
  }
}
