/** The Base64 alphabet, padding and groups of RFC 4648 section 4, and little-endian words in memory. */
module Base64 {
  const PAD: bv8 := 0x3d
  const INVALID: bv32 := 0xffff_ffff

  /** The character of a six-bit value. */
  function Char(v: bv32): bv8 {
    if v < 26 then ((v + 65) & 0xff) as bv8
    else if v < 52 then ((v + 71) & 0xff) as bv8
    else if v < 62 then ((v - 4) & 0xff) as bv8
    else if v == 62 then 0x2b
    else 0x2f
  }

  predicate InAlphabet(c: bv8) {
    65 <= c <= 90 || 97 <= c <= 122 || 48 <= c <= 57 || c == 0x2b || c == 0x2f
  }

  /** The six-bit value of an alphabet character. */
  function Value(c: bv8): bv32 {
    if 65 <= c <= 90 then (c - 65) as bv32
    else if 97 <= c <= 122 then (c - 71) as bv32
    else if 48 <= c <= 57 then (c + 4) as bv32
    else if c == 0x2b then 62
    else 63
  }

  lemma CharValue(v: bv32)
    requires v < 64
    ensures InAlphabet(Char(v)) && Value(Char(v)) == v && Char(v) != PAD
  {
  }

  // ---------------------------------------------------------------- the alphabet and the bits, as the standard gives them

  const UPPER := "ABCDEFGHIJKLMNOPQRSTUVWXYZ"
  const LOWER := "abcdefghijklmnopqrstuvwxyz"
  const DIGITS := "0123456789"
  const ALPHABET := UPPER + LOWER + DIGITS + "+/"

  lemma AlphabetParts(i: nat)
    requires i < 64
    ensures |ALPHABET| == 64
    ensures ALPHABET[i] ==
            if i < 26 then UPPER[i] else if i < 52 then LOWER[i - 26] else if i < 62 then DIGITS[i - 52] else if i == 62 then '+' else '/'
  {
  }

  lemma PartLetters(i: nat)
    ensures i < 26 ==> UPPER[i] == 'A' + i as char && LOWER[i] == 'a' + i as char
    ensures i < 10 ==> DIGITS[i] == '0' + i as char
  {
  }

  /** The character of the standard for a six-bit value. */
  function Letter(v: bv32): char
    requires v < 64
  {
    ALPHABET[v as int]
  }

  lemma LetterForms(v: bv32)
    requires v < 64
    ensures Char(v) as char == Letter(v)
  {
    var i := v as int;
    AlphabetParts(i);
    if i < 26 { PartLetters(i); } else if i < 52 { PartLetters(i - 26); } else if i < 62 { PartLetters(i - 52); }
    hide ALPHABET, UPPER, LOWER, DIGITS;
  }

  /** The characters of the standard's alphabet, each with its own value; `=` pads and is none of them. */
  lemma ValueIsPlace(c: bv8, v: bv32)
    requires v < 64
    ensures InAlphabet(c) && Value(c) == v <==> Letter(v) == c as char
    ensures PAD as char == '=' != Letter(v)
  {
    CharValue(v);
    LetterForms(v);
    ValueChar(c);
    hide Letter, ALPHABET;
  }

  lemma ValueChar(c: bv8)
    ensures InAlphabet(c) ==> Value(c) < 64 && Char(Value(c)) == c
  {
  }

  /** Three bytes joined into 24 bits. */
  function Group(b0: bv8, b1: bv8, b2: bv8): bv32 { ((b0 as bv32) << 16) | ((b1 as bv32) << 8) | (b2 as bv32) }

  /** Value `k`, from the left, of the four six-bit values of a group. */
  function Sextet(group: bv32, k: nat): bv32
    requires k < 4
  {
    match k
    case 0 => (group >> 18) & 63
    case 1 => (group >> 12) & 63
    case 2 => (group >> 6) & 63
    case _ => group & 63
  }

  /** The group with these four six-bit values. */
  function Joined(v0: bv32, v1: bv32, v2: bv32, v3: bv32): bv32 { (v0 << 18) | (v1 << 12) | (v2 << 6) | v3 }

  /** Byte `k`, from the left, of a group. */
  function Octet(group: bv32, k: nat): bv8
    requires k < 3
  {
    match k
    case 0 => Low(group >> 16)
    case 1 => Low(group >> 8)
    case _ => Low(group)
  }

  lemma GroupsInvert(b0: bv8, b1: bv8, b2: bv8)
    ensures var g := Group(b0, b1, b2);
            && Joined(Sextet(g, 0), Sextet(g, 1), Sextet(g, 2), Sextet(g, 3)) == g
            && Octet(g, 0) == b0 && Octet(g, 1) == b1 && Octet(g, 2) == b2
            && Sextet(g, 0) < 64 && Sextet(g, 1) < 64 && Sextet(g, 2) < 64 && Sextet(g, 3) < 64
            && (b2 == 0 ==> Sextet(g, 3) == 0) && (b2 == 0 && b1 == 0 ==> Sextet(g, 2) == 0)
  {
  }

  function EncodedLength(n: nat): nat { (n + 2) / 3 * 4 }

  /** Byte `i` of the input, zero beyond its end. */
  function ByteOrZero(b: seq<bv8>, i: nat): bv8 { if i < |b| then b[i] else 0 }

  /** Character `k` of the encoding: padding once the group has no more input bits, else a character of the zero-filled group. */
  function CharAt(b: seq<bv8>, k: nat): bv8
    requires k < EncodedLength(|b|)
  {
    var i := k / 4 * 3;
    if k % 4 > |b| - i then PAD
    else Char(Sextet(Group(ByteOrZero(b, i), ByteOrZero(b, i + 1), ByteOrZero(b, i + 2)), k % 4))
  }

  function Encode(b: seq<bv8>): (text: seq<bv8>)
    ensures |text| == EncodedLength(|b|)
  {
    seq(EncodedLength(|b|), k requires 0 <= k < EncodedLength(|b|) => CharAt(b, k))
  }

  /** Character `k` of the encoding by section 4 of RFC 4648: six bits at a time, from the left, and `=` where no bits are left. */
  function StandardCharacter(b: seq<bv8>, k: nat): char
    requires k < EncodedLength(|b|)
  {
    var i := k / 4 * 3;
    var b0, b1, b2 := ByteOrZero(b, i) as bv32, ByteOrZero(b, i + 1) as bv32, ByteOrZero(b, i + 2) as bv32;
    match k % 4
    case 0 => Letter(b0 >> 2)
    case 1 => Letter(((b0 & 3) << 4) | (b1 >> 4))
    case 2 => if i + 1 < |b| then Letter(((b1 & 15) << 2) | (b2 >> 6)) else '='
    case _ => if i + 2 < |b| then Letter(b2 & 63) else '='
  }

  lemma SextetBits(b0: bv8, b1: bv8, b2: bv8)
    ensures var g, w0, w1, w2 := Group(b0, b1, b2), b0 as bv32, b1 as bv32, b2 as bv32;
            && Sextet(g, 0) == w0 >> 2 < 64 && Sextet(g, 1) == ((w0 & 3) << 4) | (w1 >> 4) < 64
            && Sextet(g, 2) == ((w1 & 15) << 2) | (w2 >> 6) < 64 && Sextet(g, 3) == w2 & 63 < 64
  {
  }

  lemma EncodesAsStandard(b: seq<bv8>, k: nat)
    requires k < EncodedLength(|b|)
    ensures CharAt(b, k) as char == StandardCharacter(b, k)
  {
    hide Char, Group, Sextet, Letter, ALPHABET;
    var i := k / 4 * 3;
    var b0, b1, b2 := ByteOrZero(b, i), ByteOrZero(b, i + 1), ByteOrZero(b, i + 2);
    SextetBits(b0, b1, b2);
    ValueIsPlace(PAD, 0);
    var g := Group(b0, b1, b2);
    LetterForms(Sextet(g, 0));
    LetterForms(Sextet(g, 1));
    LetterForms(Sextet(g, 2));
    LetterForms(Sextet(g, 3));
  }

  lemma EncodingIsStandard(b: seq<bv8>)
    ensures forall k :: 0 <= k < EncodedLength(|b|) ==> Encode(b)[k] as char == StandardCharacter(b, k)
  {
    hide CharAt, StandardCharacter;
    forall k | 0 <= k < EncodedLength(|b|) ensures Encode(b)[k] as char == StandardCharacter(b, k) { EncodesAsStandard(b, k); }
  }

  /** How many of the last four characters of a text are not trailing padding. */
  function LastCount(t: seq<bv8>): (l: nat)
    requires |t| >= 4
    ensures 1 <= l <= 4
  {
    if t[|t| - 1] != PAD then 4 else if t[|t| - 2] != PAD then 3 else if t[|t| - 3] != PAD then 2 else 1
  }

  predicate WholeGroups(t: seq<bv8>) { t != [] && |t| % 4 == 0 }

  /** Bytes a decoder writes for a text of whole groups: a single character is decoded to one byte too. */
  function DecodedLength(t: seq<bv8>): nat
    requires WholeGroups(t)
  {
    |t| / 4 * 3 - (4 - if LastCount(t) == 1 then 2 else LastCount(t))
  }

  /** How many characters of group `g` are not trailing padding. */
  function GroupCount(t: seq<bv8>, g: nat): (n: nat)
    requires WholeGroups(t) && g < |t| / 4
  {
    if g == |t| / 4 - 1 then LastCount(t) else 4
  }

  /** The characters of group `g`, without trailing padding, are in the alphabet. */
  predicate ValidGroup(t: seq<bv8>, g: nat)
    requires WholeGroups(t) && g < |t| / 4
  {
    forall j :: 4 * g <= j < 4 * g + GroupCount(t, g) ==> InAlphabet(t[j])
  }

  function ValueOrZero(c: bv8): bv32 { if c == PAD then 0 else Value(c) }

  function GroupOf(t: seq<bv8>, g: nat): bv32
    requires WholeGroups(t) && g < |t| / 4
  {
    Joined(ValueOrZero(t[4 * g]), ValueOrZero(t[4 * g + 1]), ValueOrZero(t[4 * g + 2]), ValueOrZero(t[4 * g + 3]))
  }

  function ByteAt(t: seq<bv8>, k: nat): bv8
    requires WholeGroups(t) && k < DecodedLength(t)
  {
    Octet(GroupOf(t, k / 3), k % 3)
  }

  /** Byte `k` of three, from the left, of four six-bit values. */
  function ByteOfFour(v0: bv32, v1: bv32, v2: bv32, v3: bv32, k: nat): bv32
    requires k < 3
  {
    match k
    case 0 => (v0 << 2) | (v1 >> 4)
    case 1 => ((v1 & 15) << 4) | (v2 >> 2)
    case _ => ((v2 & 3) << 6) | v3
  }

  /** Byte `k` of the decoding, by the values of its group's characters, padding counting as 0. */
  function StandardByte(t: seq<bv8>, k: nat): bv32
    requires WholeGroups(t) && k < DecodedLength(t)
  {
    var c := 4 * (k / 3);
    ByteOfFour(ValueOrZero(t[c]), ValueOrZero(t[c + 1]), ValueOrZero(t[c + 2]), ValueOrZero(t[c + 3]), k % 3)
  }

  lemma OctetBits(v0: bv32, v1: bv32, v2: bv32, v3: bv32)
    requires v0 < 64 && v1 < 64 && v2 < 64 && v3 < 64
    ensures var g := Joined(v0, v1, v2, v3);
            && Octet(g, 0) as bv32 == ByteOfFour(v0, v1, v2, v3, 0) && Octet(g, 1) as bv32 == ByteOfFour(v0, v1, v2, v3, 1)
            && Octet(g, 2) as bv32 == ByteOfFour(v0, v1, v2, v3, 2)
  {
  }

  lemma GroupInside(t: seq<bv8>, k: nat)
    requires WholeGroups(t) && k < DecodedLength(t)
    ensures k / 3 < |t| / 4 && 4 * (k / 3) + 4 <= |t|
  {
  }

  lemma ValueSmall(c: bv8)
    ensures ValueOrZero(c) < 64
  {
  }

  lemma DecodesAsStandard(t: seq<bv8>, k: nat)
    requires WholeGroups(t) && k < DecodedLength(t)
    ensures ByteAt(t, k) as bv32 == StandardByte(t, k)
  {
    hide Joined, Octet, Value, ValueOrZero, ByteOfFour, DecodedLength;
    var c := 4 * (k / 3);
    GroupInside(t, k);
    ValueSmall(t[c]);
    ValueSmall(t[c + 1]);
    ValueSmall(t[c + 2]);
    ValueSmall(t[c + 3]);
    OctetBits(ValueOrZero(t[c]), ValueOrZero(t[c + 1]), ValueOrZero(t[c + 2]), ValueOrZero(t[c + 3]));
  }

  lemma DecodingIsStandard(t: seq<bv8>)
    requires WholeGroups(t)
    ensures forall k: nat {:trigger StandardByte(t, k)} :: k < DecodedLength(t) ==> ByteAt(t, k) as bv32 == StandardByte(t, k)
  {
    hide ByteAt, StandardByte;
    forall k: nat | k < DecodedLength(t) ensures ByteAt(t, k) as bv32 == StandardByte(t, k) { DecodesAsStandard(t, k); }
  }

  lemma ByteOfGroup(t: seq<bv8>, g: nat, j: nat)
    requires WholeGroups(t) && j < 3 && 3 * g + j < DecodedLength(t)
    ensures g < |t| / 4 && ByteAt(t, 3 * g + j) == Octet(GroupOf(t, g), j)
  {
    hide Octet, GroupOf;
    assert (3 * g + j) / 3 == g && (3 * g + j) % 3 == j;
  }

  function Decode(t: seq<bv8>): (b: seq<bv8>)
    requires WholeGroups(t)
    ensures |b| == DecodedLength(t)
  {
    seq(DecodedLength(t), k requires 0 <= k < DecodedLength(t) => ByteAt(t, k))
  }

  /** An encoding is a valid text, and decoding it gives the bytes back. */
  lemma DecodeEncode(b: seq<bv8>)
    requires b != []
    ensures WholeGroups(Encode(b)) && (forall g: nat :: g < |Encode(b)| / 4 ==> ValidGroup(Encode(b), g))
    ensures Decode(Encode(b)) == b
  {
    var t := Encode(b);
    hide Char, Value, InAlphabet, Group, Sextet, Joined, Octet, CharAt, ByteAt, GroupOf, ValidGroup;
    EncodedPadding(b);
    forall g: nat | g < |t| / 4 ensures ValidGroup(t, g) { EncodedGroup(b, g); }
    forall k | 0 <= k < |b| ensures ByteAt(t, k) == b[k] { EncodedByte(b, k); }
  }

  lemma EncodedPadding(b: seq<bv8>)
    requires b != []
    ensures var t := Encode(b); WholeGroups(t) && DecodedLength(t) == |b| && LastCount(t) == (|b| + 2) % 3 + 2
  {
    hide Char, Value, InAlphabet, Group, Sextet;
    var t := Encode(b);
    var g := |t| / 4 - 1;
    CharGroup(b, g);
  }

  /** The characters of one group of an encoding. */
  lemma CharGroup(b: seq<bv8>, g: nat)
    requires 3 * g < |b|
    ensures 4 * g + 4 <= EncodedLength(|b|)
    ensures var n, group := |b| - 3 * g, Group(b[3 * g], ByteOrZero(b, 3 * g + 1), ByteOrZero(b, 3 * g + 2));
            && CharAt(b, 4 * g) == Char(Sextet(group, 0)) && CharAt(b, 4 * g + 1) == Char(Sextet(group, 1))
            && CharAt(b, 4 * g + 2) == (if n == 1 then PAD else Char(Sextet(group, 2)))
            && CharAt(b, 4 * g + 3) == (if n <= 2 then PAD else Char(Sextet(group, 3)))
            && (forall j :: 0 <= j < 4 ==> Sextet(group, j) < 64 && InAlphabet(Char(Sextet(group, j))) && Char(Sextet(group, j)) != PAD)
            && (forall j :: 0 <= j < 4 ==> Value(Char(Sextet(group, j))) == Sextet(group, j))
  {
    hide Char, Value, InAlphabet, Group, Sextet;
    var group := Group(b[3 * g], ByteOrZero(b, 3 * g + 1), ByteOrZero(b, 3 * g + 2));
    GroupsInvert(b[3 * g], ByteOrZero(b, 3 * g + 1), ByteOrZero(b, 3 * g + 2));
    forall j | 0 <= j < 4 ensures Sextet(group, j) < 64 {
      if j == 0 {} else if j == 1 {} else if j == 2 {} else { assert j == 3; }
    }
    forall j | 0 <= j < 4
      ensures InAlphabet(Char(Sextet(group, j))) && Char(Sextet(group, j)) != PAD && Value(Char(Sextet(group, j))) == Sextet(group, j)
    {
      CharValue(Sextet(group, j));
    }
  }

  lemma EncodedGroup(b: seq<bv8>, g: nat)
    requires b != [] && g < |Encode(b)| / 4
    ensures WholeGroups(Encode(b)) && ValidGroup(Encode(b), g)
    ensures GroupOf(Encode(b), g) == Group(ByteOrZero(b, 3 * g), ByteOrZero(b, 3 * g + 1), ByteOrZero(b, 3 * g + 2))
  {
    hide Char, Value, InAlphabet, Group, Sextet, Joined, CharAt;
    EncodedPadding(b);
    CharGroup(b, g);
    GroupsInvert(b[3 * g], ByteOrZero(b, 3 * g + 1), ByteOrZero(b, 3 * g + 2));
  }

  lemma EncodedByte(b: seq<bv8>, k: nat)
    requires k < |b|
    ensures WholeGroups(Encode(b)) && k < DecodedLength(Encode(b)) && ByteAt(Encode(b), k) == b[k]
  {
    hide Group, GroupOf, Octet, Sextet, Joined;
    var g := k / 3;
    EncodedPadding(b);
    EncodedGroup(b, g);
    GroupsInvert(ByteOrZero(b, 3 * g), ByteOrZero(b, 3 * g + 1), ByteOrZero(b, 3 * g + 2));
    if k % 3 == 0 { assert k == 3 * g; } else if k % 3 == 1 { assert k == 3 * g + 1; } else { assert k == 3 * g + 2; }
  }

  function Low(w: bv32): bv8 { (w & 0xff) as bv8 }

  function Word(b0: bv8, b1: bv8, b2: bv8, b3: bv8): bv32 {
    (b0 as bv32) | ((b1 as bv32) << 8) | ((b2 as bv32) << 16) | ((b3 as bv32) << 24)
  }

  /** ctou32 on a little-endian machine. */
  function Load(b: seq<bv8>, i: nat): bv32
    requires i + 4 <= |b|
  {
    Word(b[i], b[i + 1], b[i + 2], b[i + 3])
  }

  function Swap(w: bv32): bv32 { Word(Low(w >> 24), Low(w >> 16), Low(w >> 8), Low(w)) }

  /** Byte `k` of a word, from the low end. */
  function Byte(w: bv32, k: nat): bv8
    requires k < 4
  {
    match k
    case 0 => Low(w)
    case 1 => Low(w >> 8)
    case 2 => Low(w >> 16)
    case _ => Low(w >> 24)
  }

  lemma WordBytes(b0: bv8, b1: bv8, b2: bv8, b3: bv8)
    ensures var w := Word(b0, b1, b2, b3); Byte(w, 0) == b0 && Byte(w, 1) == b1 && Byte(w, 2) == b2 && Byte(w, 3) == b3
  {
  }

  /** stou32: four bytes of `out` and no more. */
  method Store(out: array<bv8>, i: nat, w: bv32)
    requires i + 4 <= out.Length
    modifies out
    ensures out[i] == Byte(w, 0) && out[i + 1] == Byte(w, 1) && out[i + 2] == Byte(w, 2) && out[i + 3] == Byte(w, 3)
    ensures forall k :: 0 <= k < out.Length && !(i <= k < i + 4) ==> out[k] == old(out[k])
  {
    hide Byte;
    out[i], out[i + 1], out[i + 2], out[i + 3] := Byte(w, 0), Byte(w, 1), Byte(w, 2), Byte(w, 3);
  }
}
