/** The size computation of `ByteSize`: one byte per tag, optional fields first,
    then repeated fields, then unknown fields. */
module Sizes {
  import opened Wrappers
  import opened Wire
  import opened Message

  /** A size is an `int` in the source, and no sum on the way may overflow. */
  const INT_MAX: nat := 0x7fff_ffff

  type Length = n: nat | n <= INT_MAX

  function VarintSize32(n: nat): nat {
    if n < 0x80 then 1
    else if n < 0x4000 then 2
    else if n < 0x20_0000 then 3
    else if n < 0x1000_0000 then 4
    else 5
  }

  lemma VarintSize32Exact(n: nat)
    requires n < TWO_32
    ensures VarintSize32(n) == |Varint(n)|
  {
    var a := n / 128;
    var b := a / 128;
    var c := b / 128;
    var d := c / 128;
    assert |Varint(n)| == if n < 128 then 1 else 1 + |Varint(a)|;
    assert |Varint(a)| == if a < 128 then 1 else 1 + |Varint(b)|;
    assert |Varint(b)| == if b < 128 then 1 else 1 + |Varint(c)|;
    assert |Varint(c)| == if c < 128 then 1 else 1 + |Varint(d)|;
  }

  function DelimitedSize(length: nat): (n: nat)
    ensures n > length
  {
    VarintSize32(length) + length
  }

  // ---------------------------------------------------------------- unknown fields

  function UnknownSize(u: Unknown): nat
    decreases u, 0
  {
    |Varint(MakeTag(u.number, WireTypeOf(u)))| +
    match u
    case UVarint(_, v) => |Varint(v)|
    case UFixed64(_, _) => 8
    case UBytes(_, b) => |Varint(|b|)| + |b|
    case UGroup(n, fs) => UnknownsSize(fs) + |Varint(MakeTag(n, WT_END_GROUP))|
    case UFixed32(_, _) => 4
  }

  function UnknownsSize(us: seq<Unknown>): nat
    decreases us, 0
  {
    if us == [] then 0 else UnknownSize(us[0]) + UnknownsSize(us[1..])
  }

  lemma {:induction false} UnknownSizeExact(u: Unknown)
    requires WellSized(u)
    ensures UnknownSize(u) == |SerializeUnknown(u)|
    decreases u, 0
  {
    if u.UGroup? {
      UnknownsSizeExact(u.fields);
    }
  }

  lemma {:induction false} UnknownsSizeExact(us: seq<Unknown>)
    requires AllWellSized(us)
    ensures UnknownsSize(us) == |SerializeUnknowns(us)|
    decreases us, 0
  {
    if us != [] {
      assert WellSized(us[0]) && AllWellSized(us[1..]);
      UnknownSizeExact(us[0]);
      UnknownsSizeExact(us[1..]);
    }
  }

  // ---------------------------------------------------------------- messages

  /** What a field that is not repeated adds. */
  function OptionalSize(k: Kind, slot: Slot): nat
    decreases slot, 0
  {
    match slot
    case Unset => 0
    case BytesSlot(b) => 1 + DelimitedSize(|b|)
    case UintSlot(v) => 1 + VarintSize32(v)
    case MessageSlot(m) => if k.KMessage? then 1 + DelimitedSize(Size(k.sub, m)) else 0
    case ListSlot(_) => 0
  }

  function OptionalSizes(ks: seq<Kind>, slots: seq<Slot>): nat
    requires |ks| == |slots|
    decreases slots, 0
  {
    if slots == [] then 0 else OptionalSize(ks[0], slots[0]) + OptionalSizes(ks[1..], slots[1..])
  }

  function ElementSizes(sub: Schema, ms: seq<Msg>): nat
    decreases ms, 0
  {
    if ms == [] then 0 else DelimitedSize(Size(sub, ms[0])) + ElementSizes(sub, ms[1..])
  }

  function RepeatedSizes(ks: seq<Kind>, slots: seq<Slot>): nat
    requires |ks| == |slots|
    decreases slots, 0
  {
    if slots == [] then 0
    else
      (if ks[0].KRepeated? && slots[0].ListSlot? then
         |slots[0].msgs| + ElementSizes(ks[0].sub, slots[0].msgs) else 0)
      + RepeatedSizes(ks[1..], slots[1..])
  }

  function Size(sc: Schema, m: Msg): nat
    decreases m, 0
  {
    (if |sc.fields| == |m.slots| then OptionalSizes(sc.fields, m.slots) + RepeatedSizes(sc.fields, m.slots) else 0)
    + UnknownsSize(m.unknown)
  }

  lemma OneByteTag(k: Kind, number: nat)
    requires number <= 15
    ensures |FieldTag(k, number)| == 1
  {
    assert MakeTag(number, WireType(k)) < 128;
  }

  lemma {:induction false} ListSizeExact(k: Kind, number: nat, ms: seq<Msg>)
    requires k.KRepeated? && number <= 15 && OneByteTags(k.sub)
    requires forall i :: 0 <= i < |ms| ==> WritableNested(k.sub, ms[i])
    ensures |ms| + ElementSizes(k.sub, ms) == |SerializeList(FieldTag(k, number), k.sub, ms)|
    decreases ms, 0
  {
    if ms != [] {
      OneByteTag(k, number);
      NestedSizeExact(k.sub, ms[0]);
      ListSizeExact(k, number, ms[1..]);
    }
  }

  lemma {:induction false} NestedSizeExact(sub: Schema, m: Msg)
    requires WritableNested(sub, m) && OneByteTags(sub)
    ensures Size(sub, m) == |Serialize(sub, m)|
    ensures DelimitedSize(Size(sub, m)) == |Delimited(Serialize(sub, m))|
    decreases m, 1
  {
    SizeExact(sub, m);
    VarintSize32Exact(Size(sub, m));
  }

  lemma {:induction false} SlotSizeExact(k: Kind, number: nat, slot: Slot)
    requires number <= 15 && OneByteKind(k) && FitsSlot(k, slot) && WritableSlot(k, slot)
    ensures |SerializeSlot(k, number, slot)| == OptionalSize(k, slot) + RepeatedSizes([k], [slot])
    decreases slot, 1
  {
    OneByteTag(k, number);
    match slot
    case Unset =>
    case BytesSlot(b) => VarintSize32Exact(|b|);
    case UintSlot(v) => VarintSize32Exact(v);
    case MessageSlot(m) => NestedSizeExact(k.sub, m);
    case ListSlot(ms) => ListSizeExact(k, number, ms);
  }

  lemma {:induction false} SlotsSizeExact(ks: seq<Kind>, number: nat, slots: seq<Slot>)
    requires |ks| == |slots| && number + |ks| <= 16
    requires forall i :: 0 <= i < |ks| ==>
               OneByteKind(ks[i]) && FitsSlot(ks[i], slots[i]) && WritableSlot(ks[i], slots[i])
    ensures |SerializeSlots(ks, number, slots)| == OptionalSizes(ks, slots) + RepeatedSizes(ks, slots)
    decreases slots, 0
  {
    if slots != [] {
      SlotSizeExact(ks[0], number, slots[0]);
      SlotsSizeExact(ks[1..], number + 1, slots[1..]);
    }
  }

  /** The sum in ByteSize order is the length of the bytes in field order. */
  lemma {:induction false} SizeExact(sc: Schema, m: Msg)
    requires Writable(sc, m) && OneByteTags(sc)
    ensures Size(sc, m) == |Serialize(sc, m)|
    decreases m, 0
  {
    SlotsSizeExact(sc.fields, 1, m.slots);
    UnknownsSizeExact(m.unknown);
  }
}
