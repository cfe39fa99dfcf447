/** Types and functions shared by the models. */
module Basics {
  datatype Option<+T> = None | Some(value: T)

  function Min(a: int, b: int): int { if a < b then a else b }
  function Max(a: int, b: int): int { if a < b then b else a }

  predicate Int32(i: int) { -0x8000_0000 <= i < 0x8000_0000 }

  /** The int a 32-bit word holds. */
  function ToInt32(i: int): (r: int)
    ensures Int32(r) && (Int32(i) ==> r == i)
  {
    (i + 0x8000_0000) % 0x1_0000_0000 - 0x8000_0000
  }

  lemma Assoc<T>(a: seq<T>, b: seq<T>, c: seq<T>)
    ensures (a + b) + c == a + (b + c)
  {
  }

  function Without<T>(s: seq<T>, k: nat): seq<T>
    requires k < |s|
  {
    s[..k] + s[k + 1..]
  }

  /** `s` stands at `pos`. */
  predicate Occurs(doc: string, pos: nat, s: string) {
    pos + |s| <= |doc| && doc[pos..pos + |s|] == s
  }

  lemma OccursParts(doc: string, pos: nat, a: string, b: string)
    ensures Occurs(doc, pos, a + b) <==> Occurs(doc, pos, a) && Occurs(doc, pos + |a|, b)
  {
    if pos + |a| + |b| <= |doc| {
      var whole := doc[pos..pos + |a| + |b|];
      assert whole[..|a|] == doc[pos..pos + |a|] && whole[|a|..] == doc[pos + |a|..pos + |a| + |b|];
      assert whole == whole[..|a|] + whole[|a|..];
    }
  }

  lemma OccursFits(doc: string, pos: nat, s: string)
    requires Occurs(doc, pos, s)
    ensures pos + |s| <= |doc|
  {
  }

  lemma OccursAt(doc: string, pos: nat, s: string, i: nat)
    requires Occurs(doc, pos, s) && i < |s|
    ensures doc[pos + i] == s[i]
  {
  }
}
