/** Parsing what was serialized gives the message back. */
module RoundTrip {
  import opened Wrappers
  import opened Wire
  import opened Message
  import opened MergeLaw

  /** One printed field is read by one turn of the loop. */
  lemma TurnOnField(sc: Schema, m: Msg, i: nat, body: Bytes, slot: Slot, tail: Bytes, depth: nat)
    requires |m.slots| == |sc.fields| && i < |sc.fields| && MakeTag(|sc.fields|, WT_LENGTH) < TWO_32
    requires ReadSlot(sc.fields[i], m.slots[i], body + tail, depth) == GotSlot(slot, tail)
    ensures TakeTurn(sc, m, FieldTag(sc.fields[i], i + 1) + (body + tail), depth) == GoOn(Put(m, i, slot), tail)
  {
    ReadTagMade(i + 1, WireType(sc.fields[i]), body + tail);
    assert Recognised(sc, MakeTag(i + 1, WireType(sc.fields[i])));
  }

  lemma ReadDelimitedMessage(sub: Schema, m: Msg, b: Bytes, tail: Bytes, depth: nat, inner: Parsed)
    requires |b| < TWO_32 && depth > 0 && inner == Parse(sub, m, b, depth - 1)
    ensures ReadMessage(sub, m, Delimited(b) + tail, depth) == Finish(inner, tail)
  {
    assert Delimited(b) + tail == Varint(|b|) + (b + tail);
    ReadVarint32Varint(|b|, b + tail);
    assert (b + tail)[..|b|] == b && (b + tail)[|b|..] == tail;
  }

  lemma {:induction false} ReadMessageRoundTrip(sub: Schema, m: Msg, tail: Bytes, depth: nat)
    requires EncodableNested(sub, m, depth)
    ensures ReadMessage(sub, Default(sub), Delimited(Serialize(sub, m)) + tail, depth) == GotMsg(m, tail)
    decreases m, 4
  {
    ParseSerialized(sub, m, depth - 1);
    ReadDelimitedMessage(sub, Default(sub), Serialize(sub, m), tail, depth, Ended(m, [], true));
  }

  lemma SerializeListCons(tag: Bytes, sub: Schema, ms: seq<Msg>, tail: Bytes)
    requires ms != []
    ensures SerializeList(tag, sub, ms) + tail
         == tag + (Delimited(Serialize(sub, ms[0])) + (SerializeList(tag, sub, ms[1..]) + tail))
  {
  }

  lemma PutPut(m: Msg, i: nat, x: Slot, y: Slot)
    requires i < |m.slots|
    ensures Put(Put(m, i, x), i, y) == Put(m, i, y)
    ensures Put(m, i, m.slots[i]) == m
  {
  }

  function Append(m: Msg, i: nat, ms: seq<Msg>): Msg
    requires i < |m.slots| && m.slots[i].ListSlot?
  {
    Put(m, i, ListSlot(m.slots[i].msgs + ms))
  }

  lemma AppendCons(m: Msg, i: nat, ms: seq<Msg>)
    requires i < |m.slots| && m.slots[i].ListSlot?
    ensures ms == [] ==> Append(m, i, ms) == m
    ensures ms != [] ==> Append(Append(m, i, [ms[0]]), i, ms[1..]) == Append(m, i, ms)
  {
    if ms == [] {
      assert m.slots[i].msgs + ms == m.slots[i].msgs;
    } else {
      assert (m.slots[i].msgs + [ms[0]]) + ms[1..] == m.slots[i].msgs + ms;
      PutPut(m, i, ListSlot(m.slots[i].msgs + [ms[0]]), ListSlot(m.slots[i].msgs + ms));
    }
  }

  lemma ParseListElement(sc: Schema, m: Msg, i: nat, x: Msg, body: Bytes, rest: Bytes, depth: nat)
    requires |m.slots| == |sc.fields| && i < |sc.fields| && MakeTag(|sc.fields|, WT_LENGTH) < TWO_32
    requires sc.fields[i].KRepeated? && m.slots[i].ListSlot?
    requires ReadMessage(sc.fields[i].sub, Default(sc.fields[i].sub), body + rest, depth) == GotMsg(x, rest)
    ensures Parse(sc, m, FieldTag(sc.fields[i], i + 1) + (body + rest), depth)
              == Parse(sc, Append(m, i, [x]), rest, depth)
  {
    TurnOnField(sc, m, i, body, ListSlot(m.slots[i].msgs + [x]), rest, depth);
  }

  /** `s` is a printed list followed by `tail`, and `filled` is `m` with that list appended. */
  lemma {:induction false} ParseList(sc: Schema, m: Msg, i: nat, ms: seq<Msg>, s: Bytes, filled: Msg, tail: Bytes,
                                     depth: nat)
    requires |m.slots| == |sc.fields| && i < |sc.fields| && MakeTag(|sc.fields|, WT_LENGTH) < TWO_32
    requires sc.fields[i].KRepeated? && m.slots[i].ListSlot?
    requires forall j :: 0 <= j < |ms| ==> EncodableNested(sc.fields[i].sub, ms[j], depth)
    requires s == SerializeList(FieldTag(sc.fields[i], i + 1), sc.fields[i].sub, ms) + tail
    requires filled == Append(m, i, ms)
    ensures Parse(sc, m, s, depth) == Parse(sc, filled, tail, depth)
    decreases ms, 0
  {
    var k := sc.fields[i];
    var tag := FieldTag(k, i + 1);
    AppendCons(m, i, ms);
    if ms == [] {
      assert s == tail;
    } else {
      var rest := SerializeList(tag, k.sub, ms[1..]) + tail;
      SerializeListCons(tag, k.sub, ms, tail);
      ReadMessageRoundTrip(k.sub, ms[0], rest, depth);
      ParseListElement(sc, m, i, ms[0], Delimited(Serialize(k.sub, ms[0])), rest, depth);
      ParseList(sc, Append(m, i, [ms[0]]), i, ms[1..], rest, filled, tail, depth);
    }
  }

  lemma {:induction false} ParseSlot(sc: Schema, m: Msg, i: nat, slot: Slot, tail: Bytes, depth: nat)
    requires |m.slots| == |sc.fields| && i < |sc.fields| && MakeTag(|sc.fields|, WT_LENGTH) < TWO_32
    requires m.slots[i] == DefaultSlot(sc.fields[i])
    requires FitsSlot(sc.fields[i], slot) && EncodableSlot(sc.fields[i], slot, depth)
    ensures Parse(sc, m, SerializeSlot(sc.fields[i], i + 1, slot) + tail, depth)
              == Parse(sc, Put(m, i, slot), tail, depth)
    decreases slot, 1
  {
    var k := sc.fields[i];
    var tag := FieldTag(k, i + 1);
    match slot
    case Unset =>
      assert SerializeSlot(k, i + 1, slot) + tail == tail && Put(m, i, slot) == m;
    case BytesSlot(b) =>
      assert SerializeSlot(k, i + 1, slot) + tail == tag + (Delimited(b) + tail);
      ReadBytesDelimited(b, tail);
      TurnOnField(sc, m, i, Delimited(b), slot, tail, depth);
    case UintSlot(v) =>
      assert SerializeSlot(k, i + 1, slot) + tail == tag + (Varint(v) + tail);
      ReadVarint32Varint(v, tail);
      TurnOnField(sc, m, i, Varint(v), slot, tail, depth);
    case MessageSlot(n) =>
      var body := Delimited(Serialize(k.sub, n));
      assert SerializeSlot(k, i + 1, slot) + tail == tag + (body + tail);
      ReadMessageRoundTrip(k.sub, n, tail, depth);
      TurnOnField(sc, m, i, body, slot, tail, depth);
    case ListSlot(ms) =>
      assert [] + ms == ms;
      ParseList(sc, m, i, ms, SerializeSlot(k, i + 1, slot) + tail, Put(m, i, slot), tail, depth);
  }

  /** The slots from `i` on are still to be read. */
  lemma {:induction false} ParseSlots(sc: Schema, m: Msg, slots: seq<Slot>, i: nat, tail: Bytes, depth: nat)
    requires |m.slots| == |slots| == |sc.fields| && i <= |slots| && MakeTag(|sc.fields|, WT_LENGTH) < TWO_32
    requires m.slots == slots[..i] + DefaultSlots(sc.fields)[i..]
    requires forall j :: i <= j < |slots| ==>
               FitsSlot(sc.fields[j], slots[j]) && EncodableSlot(sc.fields[j], slots[j], depth)
    ensures Parse(sc, m, SerializeSlots(sc.fields[i..], i + 1, slots[i..]) + tail, depth)
         == Parse(sc, m.(slots := slots), tail, depth)
    decreases slots[i..], 2, |slots| - i
  {
    hide Parse, SerializeSlot, EncodableSlot, FitsSlot;
    if i == |slots| {
      assert SerializeSlots(sc.fields[i..], i + 1, slots[i..]) + tail == tail;
      assert m.slots == slots;
    } else {
      var rest := SerializeSlots(sc.fields[i + 1..], i + 2, slots[i + 1..]) + tail;
      assert sc.fields[i..][1..] == sc.fields[i + 1..] && slots[i..][1..] == slots[i + 1..];
      assert SerializeSlots(sc.fields[i..], i + 1, slots[i..]) + tail
          == SerializeSlot(sc.fields[i], i + 1, slots[i]) + rest;
      ParseSlot(sc, m, i, slots[i], rest, depth);
      var m' := Put(m, i, slots[i]);
      assert m'.slots == slots[..i + 1] + DefaultSlots(sc.fields)[i + 1..];
      ParseSlots(sc, m', slots, i + 1, tail, depth);
    }
  }

  lemma ParseOneUnknown(sc: Schema, m: Msg, u: Unknown, tail: Bytes, depth: nat)
    requires Storable(u, depth)
    requires !Recognised(sc, MakeTag(u.number, WireTypeOf(u)))
    ensures Parse(sc, m, SerializeUnknown(u) + tail, depth)
         == Parse(sc, m.(unknown := m.unknown + [u]), tail, depth)
  {
    ReadTagUnknown(u, depth, tail);
    SkipFieldRoundTrip(u, depth, tail);
    assert TakeTurn(sc, m, SerializeUnknown(u) + tail, depth) == GoOn(m.(unknown := m.unknown + [u]), tail);
  }

  lemma FirstUnknown(sc: Schema, us: seq<Unknown>, depth: nat)
    requires AllStorable(us, depth) && NoneRecognised(sc, us) && us != []
    ensures Storable(us[0], depth) && !Recognised(sc, MakeTag(us[0].number, WireTypeOf(us[0])))
    ensures AllStorable(us[1..], depth) && NoneRecognised(sc, us[1..])
  {
  }

  lemma KeepMore(m: Msg, us: seq<Unknown>)
    requires us != []
    ensures var first := m.(unknown := m.unknown + [us[0]]);
            first.(unknown := first.unknown + us[1..]) == m.(unknown := m.unknown + us)
  {
    assert (m.unknown + [us[0]]) + us[1..] == m.unknown + us;
  }

  lemma {:induction false} ParseUnknowns(sc: Schema, m: Msg, us: seq<Unknown>, filled: Msg, depth: nat)
    requires AllStorable(us, depth) && NoneRecognised(sc, us)
    requires filled == m.(unknown := m.unknown + us)
    ensures Parse(sc, m, SerializeUnknowns(us), depth) == Ended(filled, [], true)
    decreases |us|
  {
    if us == [] {
      assert m.unknown + us == m.unknown;
    } else {
      FirstUnknown(sc, us, depth);
      KeepMore(m, us);
      ParseOneUnknown(sc, m, us[0], SerializeUnknowns(us[1..]), depth);
      ParseUnknowns(sc, m.(unknown := m.unknown + [us[0]]), us[1..], filled, depth);
    }
  }

  lemma {:induction false} ParseSerialized(sc: Schema, m: Msg, depth: nat)
    requires Encodable(sc, m, depth)
    ensures Parse(sc, Default(sc), Serialize(sc, m), depth) == Ended(m, [], true)
    decreases m, 3
  {
    hide Parse, SerializeSlots, SerializeUnknowns, EncodableSlot, FitsSlot;
    var d := Default(sc);
    assert d.slots == m.slots[..0] + DefaultSlots(sc.fields)[0..];
    assert sc.fields[0..] == sc.fields && m.slots[0..] == m.slots;
    ParseSlots(sc, d, m.slots, 0, SerializeUnknowns(m.unknown), depth);
    var known := d.(slots := m.slots);
    assert [] + m.unknown == m.unknown;
    ParseUnknowns(sc, known, m.unknown, m, depth);
  }

  /** Has-bits, list order and unknown fields included. */
  lemma SerializeThenParse(sc: Schema, m: Msg)
    requires Encodable(sc, m, RECURSION_LIMIT) && |Serialize(sc, m)| <= TOTAL_BYTES_LIMIT
    ensures ParseWhole(sc, Serialize(sc, m)) == Some(m)
  {
    ParseSerialized(sc, m, RECURSION_LIMIT);
  }
}
