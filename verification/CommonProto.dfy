/** The four messages of common.proto in numerals: the tag of every field, what a parse
    does after it, and the bytes that a serializer writes. */
module CommonProto {
  import opened Wrappers
  import opened Wire
  import opened WireFormat
  import opened Message
  import opened MergeLaw
  import opened RoundTrip
  import opened Sizes
  import opened Leavings

  /** The limits of a stream that nobody has changed, and the largest size. */
  lemma DefaultLimits()
    ensures RECURSION_LIMIT == 100 && TOTAL_BYTES_LIMIT == 67_108_864 && INT_MAX == 2_147_483_647
  {
  }

  // ---------------------------------------------------------------- tags

  lemma UserInfoTags()
    ensures forall tag: nat :: Recognised(UserInfo, tag) <==> tag in {10, 18, 24, 32, 42, 48, 58}
    ensures |UserInfo.fields| == 7 && forall i :: 0 <= i < 7 ==>
              FieldTag(UserInfo.fields[i], i + 1) == [[10, 18, 24, 32, 42, 48, 58][i]]
  {
    assert UserInfo.fields == [KBytes, KBytes, KUint32, KUint32, KBytes, KUint32, KBytes];
  }

  lemma RoomInfoTags()
    ensures forall tag: nat :: Recognised(RoomInfo, tag) <==> tag in {10, 18, 24, 34, 40, 50, 56}
    ensures |RoomInfo.fields| == 7 && RoomInfo.fields[3] == KRepeated(UserInfo) && forall i :: 0 <= i < 7 ==>
              FieldTag(RoomInfo.fields[i], i + 1) == [[10, 18, 24, 34, 40, 50, 56][i]]
  {
    assert RoomInfo.fields == [KBytes, KBytes, KUint32, KRepeated(UserInfo), KUint32, KBytes, KUint32];
  }

  lemma ResponseTags()
    ensures forall tag: nat :: Recognised(GetRoomInfoRsp, tag) <==> tag in {8, 18}
    ensures forall tag: nat :: Recognised(GetRoomListRsp, tag) <==> tag in {8, 18}
    ensures GetRoomInfoRsp.fields == [KUint32, KMessage(RoomInfo)]
    ensures GetRoomListRsp.fields == [KUint32, KRepeated(RoomInfo)]
  {
  }

  // ---------------------------------------------------------------- one turn of the loop

  lemma OneByteTagRead(t: nat, s: Bytes)
    requires 0 < t < 128
    ensures ReadTag([t] + s) == Tag(t, s)
  {
    assert ([t] + s)[1..] == s;
  }

  lemma FieldTurn(sc: Schema, m: Msg, i: nat, t: nat, s: Bytes, depth: nat)
    requires i < |sc.fields| == |m.slots| && i < 15 && t == 8 * (i + 1) + if sc.fields[i].KUint32? then 0 else 2
    ensures TakeTurn(sc, m, [t] + s, depth) == Store(m, i, ReadSlot(sc.fields[i], m.slots[i], s, depth))
  {
    hide ReadSlot, Store;
    OneByteTagRead(t, s);
    assert t / 8 == i + 1;
    assert Recognised(sc, t);
  }

  /** A number: the low 32 bits of the varint after a tag of type 0. */
  lemma NumberTurn(sc: Schema, m: Msg, i: nat, s: Bytes, depth: nat)
    requires i < |sc.fields| == |m.slots| && i < 15 && sc.fields[i].KUint32? && FitsSlot(sc.fields[i], m.slots[i])
    ensures TakeTurn(sc, m, [8 * (i + 1)] + s, depth)
         == if ReadVarint32(s).Number? then
              GoOn(m.(slots := m.slots[i := UintSlot(ReadVarint32(s).value)]), ReadVarint32(s).rest)
            else Stop(Failed)
  {
    FieldTurn(sc, m, i, 8 * (i + 1), s, depth);
  }

  /** A string: as many bytes as the length after a tag of type 2 says. */
  lemma BytesTurn(sc: Schema, m: Msg, i: nat, s: Bytes, depth: nat)
    requires i < |sc.fields| == |m.slots| && i < 15 && sc.fields[i].KBytes? && FitsSlot(sc.fields[i], m.slots[i])
    ensures TakeTurn(sc, m, [8 * (i + 1) + 2] + s, depth)
         == if ReadBytes(s).GotBytes? then
              GoOn(m.(slots := m.slots[i := BytesSlot(ReadBytes(s).bytes)]), ReadBytes(s).rest)
            else Stop(Failed)
  {
    FieldTurn(sc, m, i, 8 * (i + 1) + 2, s, depth);
  }

  /** A nested message is read into the one that is there, or into a new one. */
  lemma MessageTurn(sc: Schema, m: Msg, i: nat, s: Bytes, depth: nat)
    requires i < |sc.fields| == |m.slots| && i < 15 && sc.fields[i].KMessage? && FitsSlot(sc.fields[i], m.slots[i])
    ensures var sub := sc.fields[i].sub;
            var before := if m.slots[i].Unset? then Default(sub) else m.slots[i].msg;
            var r := ReadMessage(sub, before, s, depth);
            TakeTurn(sc, m, [8 * (i + 1) + 2] + s, depth)
            == if r.GotMsg? then GoOn(m.(slots := m.slots[i := MessageSlot(r.msg)]), r.rest) else Stop(Failed)
  {
    FieldTurn(sc, m, i, 8 * (i + 1) + 2, s, depth);
  }

  /** An element is read into a new message, which comes last. */
  lemma ElementTurn(sc: Schema, m: Msg, i: nat, s: Bytes, depth: nat)
    requires i < |sc.fields| == |m.slots| && i < 15 && sc.fields[i].KRepeated? && FitsSlot(sc.fields[i], m.slots[i])
    ensures var sub := sc.fields[i].sub;
            var r := ReadMessage(sub, Default(sub), s, depth);
            TakeTurn(sc, m, [8 * (i + 1) + 2] + s, depth)
            == if r.GotMsg? then GoOn(m.(slots := m.slots[i := ListSlot(m.slots[i].msgs + [r.msg])]), r.rest)
               else Stop(Failed)
  {
    FieldTurn(sc, m, i, 8 * (i + 1) + 2, s, depth);
  }

  /** A nested message needs a length, a level of nesting and a regular end of its window,
      which the enclosing one may cut short. */
  lemma NestedExactly(sub: Schema, m: Msg, s: Bytes, depth: nat, x: Msg, rest: Bytes)
    ensures ReadMessage(sub, m, s, depth) == GotMsg(x, rest) <==>
            && ReadVarint32(s).Number? && depth > 0
            && var n, more := ReadVarint32(s).value, ReadVarint32(s).rest;
               var w := if n <= |more| then n else |more|;
               Parse(sub, m, more[..w], depth - 1) == Ended(x, [], true) && rest == more[w..]
  {
  }

  /** What a value that cannot be read leaves: a string is set to what the library left in
      it, a number is as it was, and a nested message is there as far as it was read. */
  lemma FailedTurn(d: Debris, sc: Schema, m: Msg, i: nat, s: Bytes, depth: nat)
    requires i < |sc.fields| == |m.slots| && i < 15 && FitsSlot(sc.fields[i], m.slots[i])
    ensures var k, slot := sc.fields[i], m.slots[i];
            var left := Left(d, sc, m, [8 * (i + 1) + TypeOf(k)] + s, depth).msg;
            && (k.KUint32? && ReadVarint32(s).NoNumber? ==> left == m)
            && (k.KBytes? && ReadBytes(s).NoBytes? ==>
                  left == m.(slots := m.slots[i := BytesSlot(d.text(if slot.Unset? then [] else slot.bytes, s))]))
    ensures var k, slot := sc.fields[i], m.slots[i];
            var left := Left(d, sc, m, [8 * (i + 1) + TypeOf(k)] + s, depth).msg;
            k.KMessage? ==>
              var before := if slot.Unset? then Default(k.sub) else slot.msg;
              ReadMessage(k.sub, before, s, depth).NoMsg? ==>
                left == m.(slots := m.slots[i := MessageSlot(MessageLeft(d, k.sub, before, s, depth).msg)])
    ensures var k, slot := sc.fields[i], m.slots[i];
            var left := Left(d, sc, m, [8 * (i + 1) + TypeOf(k)] + s, depth).msg;
            k.KRepeated? && ReadMessage(k.sub, Default(k.sub), s, depth).NoMsg? ==>
              var last := MessageLeft(d, k.sub, Default(k.sub), s, depth).msg;
              left == m.(slots := m.slots[i := ListSlot(slot.msgs + [last])])
  {
    hide ReadBytes, ReadVarint32, ReadMessage, MessageLeft, Left;
    var t := 8 * (i + 1) + TypeOf(sc.fields[i]);
    if ReadSlot(sc.fields[i], m.slots[i], s, depth).NoSlot? {
      FieldLeft(d, sc, m, i, t, s, depth);
    }
    assert m.slots == m.slots[i := m.slots[i]];
  }

  lemma FieldLeft(d: Debris, sc: Schema, m: Msg, i: nat, t: nat, s: Bytes, depth: nat)
    requires i < |sc.fields| == |m.slots| && i < 15 && t == 8 * (i + 1) + TypeOf(sc.fields[i])
    requires ReadSlot(sc.fields[i], m.slots[i], s, depth).NoSlot?
    ensures Left(d, sc, m, [t] + s, depth) == PutLeft(m, i, SlotLeft(d, sc.fields[i], m.slots[i], s, depth))
  {
    hide ReadSlot, SlotLeft;
    OneByteTagRead(t, s);
    assert t / 8 == i + 1;
    assert Recognised(sc, t);
    assert HandleField(sc, m, t, s, depth) == Stop(Failed);
    assert LeftFrom(d, sc, m, t, s, depth) == TurnLeft(d, sc, m, t, s, depth);
    assert Left(d, sc, m, [t] + s, depth) == LeftFrom(d, sc, m, t, s, depth);
  }

  /** Of a nested message nothing is read without a length or a level of nesting, and
      otherwise what the loop reads in its window. */
  lemma NestedLeftovers(d: Debris, sub: Schema, m: Msg, s: Bytes, depth: nat)
    ensures var r := ReadVarint32(s);
            MessageLeft(d, sub, m, s, depth).msg
            == if r.NoNumber? || depth == 0 then m
               else Left(d, sub, m, r.rest[..if r.value <= |r.rest| then r.value else |r.rest|], depth - 1).msg
  {
  }

  /** The type of a field that is not skipped. */
  function TypeOf(k: Kind): nat {
    if k.KUint32? then 0 else 2
  }

  /** Any other field is skipped and kept as unknown, its number known or not; the end of a
      group ends the loop, but not regularly. */
  lemma OtherTurn(sc: Schema, m: Msg, s: Bytes, depth: nat)
    requires ReadTag(s).Tag?
    requires var t := ReadTag(s).tag;
             1 <= t / 8 <= |sc.fields| ==> t % 8 != TypeOf(sc.fields[t / 8 - 1])
    ensures var t, rest := ReadTag(s).tag, ReadTag(s).rest;
            var f := SkipField(t, rest, depth);
            TakeTurn(sc, m, s, depth)
            == if t % 8 == 4 then Stop(Ended(m, rest, false))
               else if f.GotField? then GoOn(m.(unknown := m.unknown + [f.field]), f.rest)
               else Stop(Failed)
  {
  }

  /** The end of the window is the regular end, and a tag of 0 or an endless one is not. */
  lemma LastTurn(sc: Schema, m: Msg, s: Bytes, depth: nat)
    requires !ReadTag(s).Tag?
    ensures TakeTurn(sc, m, s, depth) == Stop(Ended(m, s, s == []))
  {
  }

  /** The loop takes turns until it stops. */
  lemma ParseTurns(sc: Schema, m: Msg, s: Bytes, depth: nat)
    ensures var t := TakeTurn(sc, m, s, depth);
            Parse(sc, m, s, depth) == if t.Stop? then t.result else Parse(sc, t.msg, t.rest, depth)
  {
  }

  /** A whole string is accepted at its regular end, with a hundred levels of nesting. */
  lemma WholeExactly(sc: Schema, s: Bytes, m: Msg)
    requires |s| <= 67_108_864
    ensures ParseWhole(sc, s) == Some(m) <==> Parse(sc, Default(sc), s, 100) == Ended(m, [], true)
  {
  }

  // ---------------------------------------------------------------- in particular

  lemma CreateTime(s: Bytes)
    requires 0 < |s| <= 10 && IsVarint(s)
    ensures ParseWhole(RoomInfo, [24] + s)
         == Some(Default(RoomInfo).(slots := Default(RoomInfo).slots[2 := UintSlot(Groups(s) % 0x1_0000_0000)]))
  {
    hide TakeTurn, ReadVarint32, IsVarint;
    var d := Default(RoomInfo);
    RoomInfoTags();
    DefaultFits(RoomInfo);
    assert s[..|s|] == s && s[|s|..] == [];
    LowBitsAreRead(s, |s|);
    NumberTurn(RoomInfo, d, 2, s, 100);
    var m := d.(slots := d.slots[2 := UintSlot(Groups(s) % 0x1_0000_0000)]);
    LastTurn(RoomInfo, m, [], 100);
    ParseTurns(RoomInfo, m, [], 100);
    ParseTurns(RoomInfo, d, [24] + s, 100);
  }

  /** Times up to 127 take one byte. */
  lemma ShortCreateTime(v: Byte)
    requires v < 128
    ensures var d := Default(RoomInfo);
            ParseWhole(RoomInfo, [24, v]) == Some(d.(slots := d.slots[2 := UintSlot(v)]))
  {
    hide ParseWhole, Default;
    assert [24] + [v] == [24, v];
    assert Groups([v]) == v % 128 + 128 * Groups([]);
    CreateTime([v]);
  }

  /** -1, which takes ten bytes. */
  const MINUS_ONE: Bytes := [255, 255, 255, 255, 255, 255, 255, 255, 255, 1]

  /** It is kept as the largest 32-bit number. */
  lemma NegativeCreateTime()
    ensures var d := Default(RoomInfo);
            ParseWhole(RoomInfo, [24] + MINUS_ONE) == Some(d.(slots := d.slots[2 := UintSlot(4_294_967_295)]))
  {
    hide ParseWhole, Default, Groups;
    MinusOne();
    CreateTime(MINUS_ONE);
  }

  lemma MinusOne()
    ensures Groups(MINUS_ONE) == 0xffff_ffff_ffff_ffff
  {
    assert Groups([1]) == 1 + 128 * Groups([]);
    assert Groups([255, 1]) == 127 + 128 * 1 by { assert [255, 1][1..] == [1]; }
    assert Groups([255, 255, 1]) == 127 + 128 * 255 by { assert [255, 255, 1][1..] == [255, 1]; }
    var s4: Bytes := [255, 255, 255, 1];
    assert s4[1..] == [255, 255, 1];
    var s5: Bytes := [255, 255, 255, 255, 1];
    assert s5[1..] == s4;
    var s6: Bytes := [255, 255, 255, 255, 255, 1];
    assert s6[1..] == s5;
    var s7: Bytes := [255, 255, 255, 255, 255, 255, 1];
    assert s7[1..] == s6;
    var s8: Bytes := [255, 255, 255, 255, 255, 255, 255, 1];
    assert s8[1..] == s7;
    var s9: Bytes := [255, 255, 255, 255, 255, 255, 255, 255, 1];
    assert s9[1..] == s8;
    assert MINUS_ONE[1..] == s9;
  }

  // ---------------------------------------------------------------- what is written

  function BytesField(tag: Byte, slot: Slot): Bytes {
    if slot.BytesSlot? then [tag] + (Varint(|slot.bytes|) + slot.bytes) else []
  }

  function NumberField(tag: Byte, slot: Slot): Bytes {
    if slot.UintSlot? then [tag] + Varint(slot.num) else []
  }

  function NestedField(tag: Byte, sub: Schema, m: Msg): Bytes {
    [tag] + (Varint(|Serialize(sub, m)|) + Serialize(sub, m))
  }

  function NestedFields(tag: Byte, sub: Schema, ms: seq<Msg>): Bytes {
    if ms == [] then [] else NestedField(tag, sub, ms[0]) + NestedFields(tag, sub, ms[1..])
  }

  lemma {:induction false} ListIsFields(tag: Byte, sub: Schema, ms: seq<Msg>)
    ensures SerializeList([tag], sub, ms) == NestedFields(tag, sub, ms)
  {
    hide Serialize, Varint;
    if ms != [] {
      ListIsFields(tag, sub, ms[1..]);
    }
  }

  lemma SlotsFrom(ks: seq<Kind>, number: nat, slots: seq<Slot>, i: nat)
    requires |ks| == |slots| && i < |slots|
    ensures SerializeSlots(ks[i..], number + i, slots[i..])
         == SerializeSlot(ks[i], number + i, slots[i]) + SerializeSlots(ks[i + 1..], number + i + 1, slots[i + 1..])
  {
    assert ks[i..][1..] == ks[i + 1..] && slots[i..][1..] == slots[i + 1..];
  }

  lemma NoSlots(ks: seq<Kind>, slots: seq<Slot>)
    requires |ks| == |slots| > 0
    ensures ks[0..] == ks && slots[0..] == slots
    ensures var n := |ks|;
            SerializeSlot(ks[n - 1], n, slots[n - 1]) + SerializeSlots(ks[n..], n + 1, slots[n..])
            == SerializeSlot(ks[n - 1], n, slots[n - 1])
  {
  }

  /** Every field that is set, in the order of the numbers, and the unknown ones last. */
  lemma UserInfoBytes(m: Msg)
    requires Fits(UserInfo, m)
    ensures Serialize(UserInfo, m)
         == BytesField(10, m.slots[0]) + (BytesField(18, m.slots[1]) + (NumberField(24, m.slots[2])
          + (NumberField(32, m.slots[3]) + (BytesField(42, m.slots[4]) + (NumberField(48, m.slots[5])
          + BytesField(58, m.slots[6])))))) + SerializeUnknowns(m.unknown)
  {
    hide Varint, FieldTag, SerializeUnknowns;
    UserInfoTags();
    AllSeven(UserInfo.fields, m.slots);
    forall i | 0 <= i < 7
      ensures FitsSlot(UserInfo.fields[i], m.slots[i])
    {
    }
  }

  lemma AllSeven(ks: seq<Kind>, slots: seq<Slot>)
    requires |ks| == |slots| == 7
    ensures SerializeSlots(ks, 1, slots)
         == SerializeSlot(ks[0], 1, slots[0]) + (SerializeSlot(ks[1], 2, slots[1]) + (SerializeSlot(ks[2], 3, slots[2])
          + (SerializeSlot(ks[3], 4, slots[3]) + (SerializeSlot(ks[4], 5, slots[4]) + (SerializeSlot(ks[5], 6, slots[5])
          + SerializeSlot(ks[6], 7, slots[6]))))))
  {
    hide *;
    NoSlots(ks, slots);
    SlotsFrom(ks, 1, slots, 0);
    SlotsFrom(ks, 1, slots, 1);
    SlotsFrom(ks, 1, slots, 2);
    SlotsFrom(ks, 1, slots, 3);
    SlotsFrom(ks, 1, slots, 4);
    SlotsFrom(ks, 1, slots, 5);
    SlotsFrom(ks, 1, slots, 6);
  }

  lemma RoomInfoBytes(m: Msg)
    requires Fits(RoomInfo, m)
    ensures Serialize(RoomInfo, m)
         == BytesField(10, m.slots[0]) + (BytesField(18, m.slots[1]) + (NumberField(24, m.slots[2])
          + (NestedFields(34, UserInfo, Items(m.slots[3])) + (NumberField(40, m.slots[4]) + (BytesField(50, m.slots[5])
          + NumberField(56, m.slots[6])))))) + SerializeUnknowns(m.unknown)
  {
    hide Varint, FieldTag, SerializeUnknowns, NestedFields;
    RoomInfoTags();
    AllSeven(RoomInfo.fields, m.slots);
    ListIsFields(34, UserInfo, Items(m.slots[3]));
    forall i | 0 <= i < 7
      ensures FitsSlot(RoomInfo.fields[i], m.slots[i])
    {
    }
  }

  lemma ResponseBytes(m: Msg)
    ensures Fits(GetRoomInfoRsp, m) ==>
              Serialize(GetRoomInfoRsp, m)
              == NumberField(8, m.slots[0])
               + (if m.slots[1].MessageSlot? then NestedField(18, RoomInfo, m.slots[1].msg) else [])
               + SerializeUnknowns(m.unknown)
    ensures Fits(GetRoomListRsp, m) ==>
              Serialize(GetRoomListRsp, m)
              == NumberField(8, m.slots[0]) + NestedFields(18, RoomInfo, Items(m.slots[1]))
               + SerializeUnknowns(m.unknown)
  {
    hide Varint, SerializeUnknowns, NestedFields;
    if |m.slots| == 2 {
      var ks, slots := GetRoomInfoRsp.fields, m.slots;
      TwoSlots(GetRoomInfoRsp.fields, slots);
      TwoSlots(GetRoomListRsp.fields, slots);
      ResponseFieldTags();
      if Fits(GetRoomInfoRsp, m) {
        assert FitsSlot(GetRoomInfoRsp.fields[0], slots[0]) && FitsSlot(GetRoomInfoRsp.fields[1], slots[1]);
      }
      if Fits(GetRoomListRsp, m) {
        assert FitsSlot(GetRoomListRsp.fields[0], slots[0]) && FitsSlot(GetRoomListRsp.fields[1], slots[1]);
        ListIsFields(18, RoomInfo, Items(slots[1]));
      }
    }
  }

  lemma ResponseFieldTags()
    ensures FieldTag(KUint32, 1) == [8]
    ensures FieldTag(KMessage(RoomInfo), 2) == FieldTag(KRepeated(RoomInfo), 2) == [18]
  {
  }

  lemma TwoSlots(ks: seq<Kind>, slots: seq<Slot>)
    requires |ks| == |slots| == 2
    ensures SerializeSlots(ks, 1, slots) == SerializeSlot(ks[0], 1, slots[0]) + SerializeSlot(ks[1], 2, slots[1])
  {
    hide *;
    NoSlots(ks, slots);
    SlotsFrom(ks, 1, slots, 0);
    SlotsFrom(ks, 1, slots, 1);
  }

  // ---------------------------------------------------------------- levels of nesting

  /** How many levels the messages of a schema nest. */
  function Nesting(sc: Schema): nat
    decreases sc
  {
    NestingOf(sc.fields)
  }

  function NestingOf(ks: seq<Kind>): (n: nat)
    ensures forall i :: 0 <= i < |ks| ==> KindNesting(ks[i]) <= n
    decreases ks
  {
    if ks == [] then 0
    else
      var n := NestingOf(ks[1..]);
      if KindNesting(ks[0]) > n then KindNesting(ks[0]) else n
  }

  function KindNesting(k: Kind): nat
    decreases k
  {
    if k.KMessage? || k.KRepeated? then Nesting(k.sub) + 1 else 0
  }

  lemma SchemasNest()
    ensures Nesting(UserInfo) == 0 && Nesting(RoomInfo) == 1
    ensures Nesting(GetRoomInfoRsp) == Nesting(GetRoomListRsp) == 2
  {
    hide NestingOf;
    OneNested(UserInfo.fields, 7);
    OneNested(RoomInfo.fields, 3);
    OneNested(GetRoomInfoRsp.fields, 1);
    OneNested(GetRoomListRsp.fields, 1);
  }

  /** At most field `i` is nested. */
  lemma {:induction false} OneNested(ks: seq<Kind>, i: nat)
    requires forall j :: 0 <= j < |ks| && j != i ==> ks[j].KBytes? || ks[j].KUint32?
    ensures NestingOf(ks) == if i < |ks| then KindNesting(ks[i]) else 0
  {
    if ks != [] {
      OneNested(ks[1..], if i > 0 then i - 1 else |ks|);
    }
  }

  /** No unknown field at any level. */
  ghost predicate Bare(m: Msg)
    decreases m, 1
  {
    m.unknown == [] && forall i :: 0 <= i < |m.slots| ==> BareSlot(m.slots[i])
  }

  ghost predicate BareSlot(slot: Slot)
    decreases slot, 0
  {
    match slot
    case MessageSlot(m) => Bare(m)
    case ListSlot(ms) => forall i :: 0 <= i < |ms| ==> Bare(ms[i])
    case _ => true
  }

  lemma {:induction false} BareIsEncodable(sc: Schema, m: Msg, depth: nat)
    requires Writable(sc, m) && Bare(m) && OneByteTags(sc) && Nesting(sc) <= depth
    ensures Encodable(sc, m, depth)
    decreases m, 1
  {
    forall i | 0 <= i < |m.slots|
      ensures EncodableSlot(sc.fields[i], m.slots[i], depth)
    {
      assert WritableSlot(sc.fields[i], m.slots[i]) && BareSlot(m.slots[i]) && OneByteKind(sc.fields[i]);
      assert FitsSlot(sc.fields[i], m.slots[i]);
      BareSlotIsEncodable(sc.fields[i], m.slots[i], depth);
    }
  }

  lemma {:induction false} BareSlotIsEncodable(k: Kind, slot: Slot, depth: nat)
    requires FitsSlot(k, slot) && WritableSlot(k, slot) && BareSlot(slot) && OneByteKind(k)
    requires KindNesting(k) <= depth
    ensures EncodableSlot(k, slot, depth)
    decreases slot, 0
  {
    if slot.MessageSlot? {
      BareIsEncodable(k.sub, slot.msg, depth - 1);
    } else if slot.ListSlot? {
      forall i | 0 <= i < |slot.msgs|
        ensures EncodableNested(k.sub, slot.msgs[i], depth)
      {
        assert WritableNested(k.sub, slot.msgs[i]);
        BareIsEncodable(k.sub, slot.msgs[i], depth - 1);
      }
    }
  }

  lemma {:induction false} SlotWithin(ks: seq<Kind>, number: nat, slots: seq<Slot>, i: nat)
    requires |ks| == |slots| && i < |slots|
    ensures |SerializeSlot(ks[i], number + i, slots[i])| <= |SerializeSlots(ks, number, slots)|
  {
    hide SerializeSlot;
    if i > 0 {
      SlotWithin(ks[1..], number + 1, slots[1..], i - 1);
    }
  }

  lemma {:induction false} ElementWithin(tag: Bytes, sub: Schema, ms: seq<Msg>, i: nat)
    requires i < |ms|
    ensures |Serialize(sub, ms[i])| <= |SerializeList(tag, sub, ms)|
  {
    hide Serialize, Varint;
    if i > 0 {
      ElementWithin(tag, sub, ms[1..], i - 1);
    }
  }

  /** No part of a message is longer than the whole. */
  lemma {:induction false} BareIsWritable(sc: Schema, m: Msg)
    requires Fits(sc, m) && Bare(m) && |Serialize(sc, m)| < 0x1_0000_0000
    ensures Writable(sc, m)
    decreases m, 1
  {
    forall i | 0 <= i < |m.slots|
      ensures WritableSlot(sc.fields[i], m.slots[i])
    {
      assert FitsSlot(sc.fields[i], m.slots[i]) && BareSlot(m.slots[i]);
      SlotWithin(sc.fields, 1, m.slots, i);
      BareSlotIsWritable(sc.fields[i], 1 + i, m.slots[i]);
    }
  }

  lemma {:induction false} BareSlotIsWritable(k: Kind, number: nat, slot: Slot)
    requires FitsSlot(k, slot) && BareSlot(slot) && |SerializeSlot(k, number, slot)| < 0x1_0000_0000
    ensures WritableSlot(k, slot)
    decreases slot, 0
  {
    hide Varint, Serialize, Writable, Bare;
    if slot.MessageSlot? {
      BareIsWritable(k.sub, slot.msg);
    } else if slot.ListSlot? {
      forall i | 0 <= i < |slot.msgs|
        ensures WritableNested(k.sub, slot.msgs[i])
      {
        ElementWithin(FieldTag(k, number), k.sub, slot.msgs, i);
        BareIsWritable(k.sub, slot.msgs[i]);
      }
    }
  }

  /** The four messages nest far less than a stream allows: without unknown fields, each is
      received as it was sent. */
  lemma BareIsReceived(sc: Schema, m: Msg)
    requires sc in {UserInfo, RoomInfo, GetRoomInfoRsp, GetRoomListRsp}
    requires Fits(sc, m) && Bare(m) && |Serialize(sc, m)| <= 67_108_864
    ensures ParseWhole(sc, Serialize(sc, m)) == Some(m)
  {
    hide Writable, Bare, Serialize, ParseWhole;
    SchemasNest();
    TagsFit();
    BareIsWritable(sc, m);
    BareIsEncodable(sc, m, 100);
    SerializeThenParse(sc, m);
  }

  lemma TagsFit()
    ensures OneByteTags(UserInfo) && OneByteTags(RoomInfo) && OneByteTags(GetRoomInfoRsp) && OneByteTags(GetRoomListRsp)
  {
    assert OneByteTags(UserInfo);
    assert OneByteTags(RoomInfo);
  }
}
