/** A message that was parsed can be sent again: its serialization is no longer than
    what was parsed, and is parsed as the same message. */
module Reencoding {
  import opened Wrappers
  import opened Wire
  import opened Message
  import opened MergeLaw
  import opened RoundTrip
  import opened Sizes

  // ---------------------------------------------------------------- sizes of varints

  lemma {:induction false} VarintMonotone(a: nat, b: nat)
    requires a <= b
    ensures |Varint(a)| <= |Varint(b)|
    decreases b
  {
    if b >= 128 && a >= 128 {
      assert a / 128 <= b / 128;
      VarintMonotone(a / 128, b / 128);
    }
  }

  /** Adding numbers does not need more bytes than both. */
  lemma {:induction false} VarintAdds(a: nat, b: nat)
    ensures |Varint(a + b)| <= |Varint(a)| + |Varint(b)|
  {
    var m := if a <= b then b else a;
    VarintMonotone(a + b, 2 * m);
    VarintDouble(m);
  }

  lemma {:induction false} VarintDouble(m: nat)
    ensures |Varint(2 * m)| <= |Varint(m)| + 1
  {
    if m >= 128 {
      assert (2 * m) / 128 <= 2 * (m / 128) + 1;
      VarintMonotone((2 * m) / 128, 2 * (m / 128) + 1);
      VarintOdd(m / 128);
    }
  }

  lemma {:induction false} VarintOdd(m: nat)
    ensures |Varint(2 * m + 1)| <= |Varint(m)| + 1
  {
    if m >= 128 {
      assert (2 * m + 1) / 128 <= 2 * (m / 128) + 1;
      VarintMonotone((2 * m + 1) / 128, 2 * (m / 128) + 1);
      VarintOdd(m / 128);
    }
  }

  /** A number that was read is printed in no more bytes. */
  lemma {:induction false} ReadGroupsShort(s: Bytes, budget: nat)
    requires ReadGroups(s, budget).Number?
    ensures |Varint(ReadGroups(s, budget).value)| + |ReadGroups(s, budget).rest| <= |s|
    decreases budget
  {
    if s[0] >= 128 {
      var high := ReadGroups(s[1..], budget - 1).value;
      ReadGroupsShort(s[1..], budget - 1);
      assert (s[0] - 128 + 128 * high) / 128 == high;
    }
  }

  lemma Read64Short(s: Bytes)
    requires ReadVarint64(s).Number?
    ensures |Varint(ReadVarint64(s).value)| + |ReadVarint64(s).rest| <= |s|
  {
    ReadGroupsShort(s, MAX_VARINT_BYTES);
    VarintMonotone(ReadVarint64(s).value, ReadGroups(s, MAX_VARINT_BYTES).value);
  }

  lemma Read32Short(s: Bytes)
    requires ReadVarint32(s).Number?
    ensures |Varint(ReadVarint32(s).value)| + |ReadVarint32(s).rest| <= |s|
  {
    Read64Short(s);
    VarintMonotone(ReadVarint32(s).value, ReadVarint64(s).value);
  }

  lemma ReadTagShort(s: Bytes)
    requires ReadTag(s).Tag?
    ensures |Varint(ReadTag(s).tag)| + |ReadTag(s).rest| <= |s|
  {
    Read32Short(s);
  }

  lemma ReadBytesShort(s: Bytes)
    requires ReadBytes(s).GotBytes?
    ensures |Delimited(ReadBytes(s).bytes)| + |ReadBytes(s).rest| <= |s|
  {
    Read32Short(s);
  }

  // ---------------------------------------------------------------- unknown fields

  lemma FieldTags(tag: nat)
    requires 0 < tag < TWO_32
    ensures tag == MakeTag(tag / 8, tag % 8) && MakeTag(tag / 8, WT_FIXED32) < TWO_32
  {
  }

  lemma SkipFlatKept(tag: nat, s: Bytes, depth: nat)
    requires 0 < tag < TWO_32 && |s| < TWO_32 && SkipFlat(tag / 8, tag % 8, s).GotField?
    ensures var r := SkipFlat(tag / 8, tag % 8, s);
            && r.field.number == tag / 8 && WireTypeOf(r.field) == tag % 8 && Storable(r.field, depth)
            && |SerializeUnknownValue(r.field)| + |r.rest| <= |s|
  {
    hide ReadVarint64, Varint;
    FieldTags(tag);
    var wireType := tag % 8;
    if wireType == WT_VARINT {
      Read64Short(s);
    } else if wireType == WT_LENGTH {
      ReadBytesShort(s);
    }
  }

  lemma {:induction false} SkipFieldKept(tag: nat, s: Bytes, depth: nat)
    requires 0 < tag < TWO_32 && |s| < TWO_32 && SkipField(tag, s, depth).GotField?
    ensures var r := SkipField(tag, s, depth);
            && MakeTag(r.field.number, WireTypeOf(r.field)) == tag && Storable(r.field, depth)
            && |SerializeUnknownValue(r.field)| + |r.rest| <= |s|
    decreases |s|, 1
  {
    FieldTags(tag);
    if tag % 8 == WT_START_GROUP {
      SkipMessageKept(s, depth - 1);
    } else {
      SkipFlatKept(tag, s, depth);
    }
  }

  /** The fields of a group, and the tag that ends it. */
  lemma {:induction false} SkipMessageKept(s: Bytes, depth: nat)
    requires |s| < TWO_32 && SkipMessage(s, depth).GotGroup? && SkipMessage(s, depth).last != 0
    ensures var r := SkipMessage(s, depth);
            && AllStorable(r.fields, depth)
            && |SerializeUnknowns(r.fields)| + |Varint(r.last)| + |r.rest| <= |s|
    decreases |s|, 0
  {
    ReadTagShort(s);
    var t, rest := ReadTag(s).tag, ReadTag(s).rest;
    if t % 8 != WT_END_GROUP {
      SkipFieldKept(t, rest, depth);
      var u := SkipField(t, rest, depth);
      SkipMessageKept(u.rest, depth);
      var later := SkipMessage(u.rest, depth);
      PrependKept(u.field, later.fields, depth);
    }
  }

  lemma PrependKept(u: Unknown, us: seq<Unknown>, depth: nat)
    requires Storable(u, depth) && AllStorable(us, depth)
    ensures AllStorable([u] + us, depth)
    ensures |SerializeUnknowns([u] + us)| == |SerializeUnknown(u)| + |SerializeUnknowns(us)|
  {
    assert ([u] + us)[1..] == us;
  }

  // ---------------------------------------------------------------- known fields

  lemma {:induction false} SlotsPut(ks: seq<Kind>, number: nat, slots: seq<Slot>, i: nat, slot: Slot)
    requires |ks| == |slots| && i < |ks|
    ensures |SerializeSlots(ks, number, slots[i := slot])| + |SerializeSlot(ks[i], number + i, slots[i])|
         == |SerializeSlots(ks, number, slots)| + |SerializeSlot(ks[i], number + i, slot)|
    decreases i
  {
    hide SerializeSlot;
    if i > 0 {
      SlotsPut(ks[1..], number + 1, slots[1..], i - 1, slot);
      assert slots[i := slot][1..] == slots[1..][i - 1 := slot];
    } else {
      assert slots[0 := slot][1..] == slots[1..];
    }
  }

  lemma PutLength(sc: Schema, m: Msg, i: nat, slot: Slot)
    requires |sc.fields| == |m.slots| && i < |m.slots|
    ensures |Serialize(sc, Put(m, i, slot))| + |SerializeSlot(sc.fields[i], i + 1, m.slots[i])|
         == |Serialize(sc, m)| + |SerializeSlot(sc.fields[i], i + 1, slot)|
  {
    SlotsPut(sc.fields, 1, m.slots, i, slot);
  }

  lemma {:induction false} DefaultsEmpty(ks: seq<Kind>, number: nat)
    ensures SerializeSlots(ks, number, DefaultSlots(ks)) == []
  {
    if ks != [] {
      assert DefaultSlots(ks)[1..] == DefaultSlots(ks[1..]);
      DefaultsEmpty(ks[1..], number + 1);
    }
  }

  lemma DefaultKept(sc: Schema, depth: nat)
    requires OneByteTags(sc)
    ensures Encodable(sc, Default(sc), depth) && Serialize(sc, Default(sc)) == []
  {
    DefaultsEmpty(sc.fields, 1);
    DefaultFits(sc);
  }

  lemma {:induction false} ListAppend(tag: Bytes, sub: Schema, ms: seq<Msg>, m: Msg)
    ensures |SerializeList(tag, sub, ms + [m])|
              == |SerializeList(tag, sub, ms)| + |tag| + |Delimited(Serialize(sub, m))|
    decreases ms
  {
    hide Serialize, Delimited;
    if ms == [] {
      assert ms + [m] == [m];
    } else {
      assert (ms + [m])[1..] == ms[1..] + [m];
      ListAppend(tag, sub, ms[1..], m);
    }
  }

  /** A nested message that grew by at most the bytes of its window. */
  lemma NestedGrows(before: nat, after: nat, window: nat)
    requires after <= before + window
    ensures |Varint(after)| + after
         <= |Varint(window)| + window + (if before == 0 then 0 else |Varint(before)| + before)
  {
    hide Varint;
    VarintMonotone(after, before + window);
    VarintAdds(before, window);
  }

  /** What holds while a message is being parsed. */
  ghost predicate Kept(sc: Schema, m: Msg, s: Bytes, depth: nat) {
    Encodable(sc, m, depth) && OneByteTags(sc) && |Serialize(sc, m)| + |s| < TWO_32
  }

  lemma {:induction false} ReadMessageKept(sub: Schema, m: Msg, s: Bytes, depth: nat)
    requires depth > 0 && Kept(sub, m, s, depth - 1) && ReadMessage(sub, m, s, depth).GotMsg?
    ensures var r := ReadMessage(sub, m, s, depth);
            var before := |Serialize(sub, m)|;
            && EncodableNested(sub, r.msg, depth)
            && |Delimited(Serialize(sub, r.msg))| + |r.rest|
               <= |s| + (if before == 0 then 0 else |Delimited(Serialize(sub, m))|)
    decreases |s|, 0
  {
    hide Encodable, OneByteTags, Serialize, Varint;
    var length, rest := ReadVarint32(s).value, ReadVarint32(s).rest;
    var w := Window(length, rest);
    Read32Short(s);
    VarintMonotone(w, length);
    ParseKept(sub, m, rest[..w], depth - 1);
    var p := Parse(sub, m, rest[..w], depth - 1);
    NestedGrows(|Serialize(sub, m)|, |Serialize(sub, p.msg)|, w);
  }

  /** The slot grows by no more than was read, and one byte for the tag. */
  lemma {:induction false} ReadSlotKept(k: Kind, number: nat, slot: Slot, s: Bytes, depth: nat)
    requires FitsSlot(k, slot) && EncodableSlot(k, slot, depth) && OneByteKind(k) && number <= 15
    requires |SerializeSlot(k, number, slot)| + |s| < TWO_32 && ReadSlot(k, slot, s, depth).GotSlot?
    ensures var r := ReadSlot(k, slot, s, depth);
            && FitsSlot(k, r.slot) && EncodableSlot(k, r.slot, depth)
            && |SerializeSlot(k, number, r.slot)| + |r.rest| <= |SerializeSlot(k, number, slot)| + |s| + 1
    decreases |s|, 2
  {
    ReadSlotFits(k, slot, s, depth);
    OneByteTag(k, number);
    match k
    case KBytes => ReadBytesShort(s);
    case KUint32 => Read32Short(s);
    case KMessage(sub) => ReadOptionalKept(k, number, slot, s, depth);
    case KRepeated(sub) => ReadElementKept(k, number, slot, s, depth);
  }

  lemma {:induction false} ReadOptionalKept(k: Kind, number: nat, slot: Slot, s: Bytes, depth: nat)
    requires k.KMessage? && FitsSlot(k, slot) && EncodableSlot(k, slot, depth) && OneByteKind(k) && number <= 15
    requires |SerializeSlot(k, number, slot)| + |s| < TWO_32 && ReadSlot(k, slot, s, depth).GotSlot?
    ensures var r := ReadSlot(k, slot, s, depth);
            && EncodableSlot(k, r.slot, depth)
            && |SerializeSlot(k, number, r.slot)| + |r.rest| <= |SerializeSlot(k, number, slot)| + |s| + 1
    decreases |s|, 1
  {
    OneByteTag(k, number);
    DefaultKept(k.sub, depth - 1);
    ReadMessageKept(k.sub, Target(k.sub, slot), s, depth);
  }

  lemma {:induction false} ReadElementKept(k: Kind, number: nat, slot: Slot, s: Bytes, depth: nat)
    requires k.KRepeated? && FitsSlot(k, slot) && EncodableSlot(k, slot, depth) && OneByteKind(k) && number <= 15
    requires |SerializeSlot(k, number, slot)| + |s| < TWO_32 && ReadSlot(k, slot, s, depth).GotSlot?
    ensures var r := ReadSlot(k, slot, s, depth);
            && EncodableSlot(k, r.slot, depth)
            && |SerializeSlot(k, number, r.slot)| + |r.rest| <= |SerializeSlot(k, number, slot)| + |s| + 1
    decreases |s|, 1
  {
    hide Encodable, Serialize, Default, Parse;
    OneByteTag(k, number);
    DefaultKept(k.sub, depth - 1);
    ReadMessageKept(k.sub, Default(k.sub), s, depth);
    var m := ReadMessage(k.sub, Default(k.sub), s, depth).msg;
    ListAppend(FieldTag(k, number), k.sub, slot.msgs, m);
  }

  lemma {:induction false} HandleFieldKept(sc: Schema, m: Msg, tag: nat, s: Bytes, depth: nat)
    requires Kept(sc, m, s, depth) && 0 < tag < TWO_32 && HandleField(sc, m, tag, s, depth).GoOn?
    ensures var t := HandleField(sc, m, tag, s, depth);
            && Encodable(sc, t.msg, depth)
            && |Serialize(sc, t.msg)| + |t.rest| <= |Serialize(sc, m)| + |s| + |Varint(tag)|
    decreases |s|, 4
  {
    if Recognised(sc, tag) {
      HandleKnownKept(sc, m, tag / 8 - 1, s, depth);
    } else {
      SkipFieldKept(tag, s, depth);
      KeepLength(sc, m, SkipField(tag, s, depth).field, depth);
    }
  }

  lemma {:induction false} HandleKnownKept(sc: Schema, m: Msg, i: nat, s: Bytes, depth: nat)
    requires Kept(sc, m, s, depth) && i < |sc.fields| && ReadSlot(sc.fields[i], m.slots[i], s, depth).GotSlot?
    ensures var r := ReadSlot(sc.fields[i], m.slots[i], s, depth);
            && Encodable(sc, Put(m, i, r.slot), depth)
            && |Serialize(sc, Put(m, i, r.slot))| + |r.rest| <= |Serialize(sc, m)| + |s| + 1
    decreases |s|, 3
  {
    hide SerializeSlot, Serialize, ReadSlot, FitsSlot, EncodableSlot;
    var slot := ReadSlot(sc.fields[i], m.slots[i], s, depth).slot;
    PutLength(sc, m, i, Unset);
    UnsetEmpty(sc.fields[i], i + 1);
    PutLength(sc, m, i, slot);
    ReadSlotKept(sc.fields[i], i + 1, m.slots[i], s, depth);
  }

  lemma UnsetEmpty(k: Kind, number: nat)
    ensures SerializeSlot(k, number, Unset) == []
  {
  }

  lemma KeepLength(sc: Schema, m: Msg, u: Unknown, depth: nat)
    requires Encodable(sc, m, depth) && Storable(u, depth) && !Recognised(sc, MakeTag(u.number, WireTypeOf(u)))
    ensures var kept := m.(unknown := m.unknown + [u]);
            Encodable(sc, kept, depth) && |Serialize(sc, kept)| == |Serialize(sc, m)| + |SerializeUnknown(u)|
  {
    UnknownsAppend(m.unknown, u);
  }

  lemma {:induction false} UnknownsAppend(us: seq<Unknown>, u: Unknown)
    ensures |SerializeUnknowns(us + [u])| == |SerializeUnknowns(us)| + |SerializeUnknown(u)|
    decreases us
  {
    hide SerializeUnknown;
    if us == [] {
      assert us + [u] == [u];
    } else {
      assert (us + [u])[1..] == us[1..] + [u];
      UnknownsAppend(us[1..], u);
    }
  }

  /** Parsing keeps a message fit to be sent, within the bytes that were read. */
  lemma {:induction false} ParseKept(sc: Schema, m: Msg, s: Bytes, depth: nat)
    requires Kept(sc, m, s, depth) && Parse(sc, m, s, depth).Ended?
    ensures var p := Parse(sc, m, s, depth);
            Encodable(sc, p.msg, depth) && |Serialize(sc, p.msg)| + |p.rest| <= |Serialize(sc, m)| + |s|
    decreases |s|, 5
  {
    hide Encodable, OneByteTags, Serialize, HandleField, Varint;
    var t := TakeTurn(sc, m, s, depth);
    if t.GoOn? {
      ReadTagShort(s);
      HandleFieldKept(sc, m, ReadTag(s).tag, ReadTag(s).rest, depth);
      ParseKept(sc, t.msg, t.rest, depth);
    } else {
      StopKeeps(sc, m, s, depth);
    }
  }

  lemma StopKeeps(sc: Schema, m: Msg, s: Bytes, depth: nat)
    requires TakeTurn(sc, m, s, depth).Stop? && TakeTurn(sc, m, s, depth).result.Ended?
    ensures TakeTurn(sc, m, s, depth).result.msg == m && |TakeTurn(sc, m, s, depth).result.rest| <= |s|
  {
  }

  /** Whatever is accepted, its message is sent in no more bytes and read back as it is. */
  lemma ParsedIsSentBack(sc: Schema, s: Bytes)
    requires OneByteTags(sc) && |s| <= TOTAL_BYTES_LIMIT && ParseWhole(sc, s).Some?
    ensures var m := ParseWhole(sc, s).value;
            && Encodable(sc, m, RECURSION_LIMIT)
            && |Serialize(sc, m)| <= |s| && ParseWhole(sc, Serialize(sc, m)) == Some(m)
  {
    DefaultKept(sc, RECURSION_LIMIT);
    ParseKept(sc, Default(sc), s, RECURSION_LIMIT);
    SerializeThenParse(sc, ParseWhole(sc, s).value);
  }
}
