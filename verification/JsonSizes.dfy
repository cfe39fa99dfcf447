/**
 What the 32-bit size() of an array does to the writers.  Both loop up to the size, so an array
 whose size they take for 0 or for a negative number is shown without its elements.
 */
module JsonSizes {
  import opened Basics
  import opened JsonValue
  import opened JsonSpelling

  /** The loop bound a writer takes from size(): FastWriter keeps it in an int, StyledWriter in an unsigned int. */
  function Bound(es: Entries, signed: bool): int {
    if signed then IntSize(es) else UIntSize(es)
  }

  /** The largest array that such a loop covers. */
  function Most(signed: bool): nat { if signed then MAX_INT else MAX_INDEX }

  lemma {:induction false} ArraySizeBound(es: Entries)
    requires IndexKeys(es)
    ensures ArraySize(es) <= MAX_INDEX + 1 && (es.Cons? ==> ArraySize(es) > 0)
    decreases es
  {
    if es.Cons? && es.rest.Cons? { ArraySizeBound(es.rest); }
  }

  /** The size is one more than the last index there is. */
  lemma {:induction false} SizeIsLast(es: Entries, k: nat)
    requires IndexKeys(es) && Sorted(es) && es.Cons?
    ensures ArraySize(es) > es.key.index && Find(es, Index(ArraySize(es) - 1)).Some?
    ensures k >= ArraySize(es) ==> Find(es, Index(k)).None?
    decreases es
  {
    if es.rest.Cons? { SizeIsLast(es.rest, k); }
  }

  /** The bound is the size, or it is not positive. */
  lemma BoundIsSize(es: Entries, signed: bool)
    requires IndexKeys(es)
    ensures var most := if signed then 0x7FFF_FFFF else 0xFFFF_FFFF;
            && Most(signed) == most
            && if ArraySize(es) <= most then Bound(es, signed) == ArraySize(es) else Bound(es, signed) <= 0
    ensures UIntSize(es) == 0 ==> IntSize(es) == 0
  {
    ArraySizeBound(es);
  }

  /** The value shown by a writer with these bounds. */
  function Crop(p: Payload, signed: bool): Payload
    decreases p
  {
    match p
    case ArrayValue(es) => ArrayValue(if Bound(es, signed) <= 0 then Nil else CropEntries(es, signed))
    case ObjectValue(es) => ObjectValue(CropEntries(es, signed))
    case _ => p
  }

  function CropEntries(es: Entries, signed: bool): Entries
    decreases es
  {
    if es.Nil? then Nil else Cons(es.key, es.node.(payload := Crop(es.node.payload, signed)), CropEntries(es.rest, signed))
  }

  /** No array in the tree is larger than its bound can say. */
  predicate SizesFit(p: Payload, signed: bool)
    decreases p
  {
    match p
    case ArrayValue(es) => ArraySize(es) <= Most(signed) && EntrySizesFit(es, signed)
    case ObjectValue(es) => EntrySizesFit(es, signed)
    case _ => true
  }

  predicate EntrySizesFit(es: Entries, signed: bool)
    decreases es
  {
    es.Cons? ==> SizesFit(es.node.payload, signed) && EntrySizesFit(es.rest, signed)
  }

  // ---------------------------------------------------------------- what cropping keeps

  lemma CropParts(es: Entries, signed: bool, i: nat)
    requires es.Cons?
    ensures var cropped := CropEntries(es, signed);
            && cropped.Cons? && cropped.key == es.key && IsHole(cropped, i) == IsHole(es, i)
            && ItemAt(cropped, i) == Crop(ItemAt(es, i), signed) && NextItems(cropped, i) == CropEntries(NextItems(es, i), signed)
            && cropped.node.payload == Crop(es.node.payload, signed) && cropped.rest == CropEntries(es.rest, signed)
            && (CropEntries(NextItems(es, i), signed).Nil? <==> NextItems(es, i).Nil?)
            && (cropped.rest.Nil? <==> es.rest.Nil?)
  {
  }

  lemma {:induction false} CropKeepsPlain(p: Payload, signed: bool)
    requires Plain(p)
    ensures Plain(Crop(p, signed))
    decreases p
  {
    match p
    case ArrayValue(es) => CropEntriesKeepsPlain(es, signed);
    case ObjectValue(es) => CropEntriesKeepsPlain(es, signed);
    case _ =>
  }

  lemma {:induction false} CropEntriesKeepsPlain(es: Entries, signed: bool)
    requires PlainEntries(es)
    ensures PlainEntries(CropEntries(es, signed))
    decreases es
  {
    if es.Cons? {
      CropKeepsPlain(es.node.payload, signed);
      CropEntriesKeepsPlain(es.rest, signed);
    }
  }

  lemma {:induction false} CropKeepsForm(p: Payload, signed: bool)
    requires WellFormed(p)
    ensures WellFormed(Crop(p, signed)) && Depth(Crop(p, signed)) <= Depth(p)
    decreases p
  {
    match p
    case ArrayValue(es) => CropEntriesKeepsForm(es, signed);
    case ObjectValue(es) => CropEntriesKeepsForm(es, signed);
    case _ =>
  }

  lemma {:induction false} CropEntriesKeepsForm(es: Entries, signed: bool)
    requires WellFormedEntries(es)
    ensures var cropped := CropEntries(es, signed);
            && WellFormedEntries(cropped) && DepthEntries(cropped) <= DepthEntries(es)
            && IndexKeys(cropped) == IndexKeys(es) && NameKeys(cropped) == NameKeys(es)
            && (Sorted(es) ==> Sorted(cropped)) && ArraySize(cropped) == ArraySize(es)
    decreases es
  {
    if es.Cons? {
      CropKeepsForm(es.node.payload, signed);
      CropEntriesKeepsForm(es.rest, signed);
    }
  }

  // ---------------------------------------------------------------- when cropping changes nothing

  lemma {:induction false} CropNothing(p: Payload, signed: bool)
    requires WellFormed(p) && SizesFit(p, signed)
    ensures Crop(p, signed) == p
    decreases p
  {
    match p
    case ArrayValue(es) =>
      BoundIsSize(es, signed);
      ArraySizeBound(es);
      CropNoEntries(es, signed);
    case ObjectValue(es) => CropNoEntries(es, signed);
    case _ =>
  }

  lemma {:induction false} CropNoEntries(es: Entries, signed: bool)
    requires WellFormedEntries(es) && EntrySizesFit(es, signed)
    ensures CropEntries(es, signed) == es
    decreases es
  {
    if es.Cons? {
      CropNothing(es.node.payload, signed);
      CropNoEntries(es.rest, signed);
    }
  }

  /** A value and what is shown of it have the same canonical form exactly when every size fits. */
  lemma {:induction false} CropShows(p: Payload, signed: bool)
    requires WellFormed(p)
    ensures Canon(Crop(p, signed)) == Canon(p) <==> SizesFit(p, signed)
    decreases p
  {
    match p
    case ArrayValue(es) =>
      BoundIsSize(es, signed);
      ArraySizeBound(es);
      CropShowsItems(es, signed, 0);
    case ObjectValue(es) => CropShowsMembers(es, signed);
    case _ =>
  }

  lemma {:induction false} CropShowsItems(es: Entries, signed: bool, i: nat)
    requires WellFormedEntries(es)
    ensures Fill(CropEntries(es, signed), i) == Fill(es, i) <==> EntrySizesFit(es, signed)
    decreases es, if IsHole(es, i) then es.key.index - i else 0
  {
    if es.Cons? {
      CropParts(es, signed, i);
      if !IsHole(es, i) { CropShows(es.node.payload, signed); }
      CropShowsItems(NextItems(es, i), signed, i + 1);
    }
  }

  lemma {:induction false} CropShowsMembers(es: Entries, signed: bool)
    requires WellFormedEntries(es)
    ensures CanonMembers(CropEntries(es, signed)) == CanonMembers(es) <==> EntrySizesFit(es, signed)
    decreases es
  {
    if es.Cons? {
      CropShows(es.node.payload, signed);
      CropShowsMembers(es.rest, signed);
    }
  }
}
