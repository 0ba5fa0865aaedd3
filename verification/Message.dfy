/** Messages as values: what a parse builds, a merge combines and a serializer
    writes.  `Parse` is the plain read-tag-and-switch loop, without the ExpectTag
    jumps of the generated code. */
module Message {
  import opened Wrappers
  import opened Wire

  /** Field number n of a message is described by `fields[n - 1]`. */
  datatype Schema = Schema(fields: seq<Kind>)

  datatype Kind =
    | KBytes
    | KUint32
    | KMessage(sub: Schema)
    | KRepeated(sub: Schema)

  datatype Slot =
    | Unset
    | BytesSlot(bytes: Bytes)
    | UintSlot(num: nat)
    | MessageSlot(msg: Msg)
    | ListSlot(msgs: seq<Msg>)

  datatype Msg = Msg(slots: seq<Slot>, unknown: seq<Unknown>)

  // ---------------------------------------------------------------- the messages of common.proto

  const UserInfo := Schema([KBytes, KBytes, KUint32, KUint32, KBytes, KUint32, KBytes])
  const RoomInfo := Schema([KBytes, KBytes, KUint32, KRepeated(UserInfo), KUint32, KBytes, KUint32])
  const GetRoomInfoRsp := Schema([KUint32, KMessage(RoomInfo)])
  const GetRoomListRsp := Schema([KUint32, KRepeated(RoomInfo)])

  /** The default limit on nested messages and groups. */
  const RECURSION_LIMIT: nat := 100

  /** The bytes that a stream reads by default, 64 MB.  A stream over a longer array may go
      on reading or not, depending on the readers it uses. */
  const TOTAL_BYTES_LIMIT: nat := 0x400_0000

  // ---------------------------------------------------------------- defaults and well-formedness

  function DefaultSlot(k: Kind): Slot {
    if k.KRepeated? then ListSlot([]) else Unset
  }

  function DefaultSlots(ks: seq<Kind>): (slots: seq<Slot>)
    ensures |slots| == |ks|
    ensures forall i :: 0 <= i < |ks| ==> slots[i] == DefaultSlot(ks[i])
  {
    seq(|ks|, i requires 0 <= i < |ks| => DefaultSlot(ks[i]))
  }

  function Default(sc: Schema): Msg {
    Msg(DefaultSlots(sc.fields), [])
  }

  function Put(m: Msg, i: nat, slot: Slot): Msg
    requires i < |m.slots|
  {
    m.(slots := m.slots[i := slot])
  }

  ghost predicate FitsSlot(k: Kind, slot: Slot)
    decreases slot, 0
  {
    match k
    case KBytes => slot.Unset? || slot.BytesSlot?
    case KUint32 => slot.Unset? || (slot.UintSlot? && slot.num < TWO_32)
    case KMessage(sub) => slot.Unset? || (slot.MessageSlot? && Fits(sub, slot.msg))
    case KRepeated(sub) => slot.ListSlot? && forall i :: 0 <= i < |slot.msgs| ==> Fits(sub, slot.msgs[i])
  }

  ghost predicate Fits(sc: Schema, m: Msg)
    decreases m, 1
  {
    |m.slots| == |sc.fields| && forall i :: 0 <= i < |m.slots| ==> FitsSlot(sc.fields[i], m.slots[i])
  }

  // ---------------------------------------------------------------- merging

  /** A later scalar wins, a nested message is merged, a repeated field grows. */
  function MergeSlot(x: Slot, y: Slot): Slot
    decreases y, 0
  {
    match y
    case Unset => x
    case BytesSlot(_) => y
    case UintSlot(_) => y
    case MessageSlot(m) => if x.MessageSlot? then MessageSlot(Merge(x.msg, m)) else y
    case ListSlot(ms) => if x.ListSlot? then ListSlot(x.msgs + ms) else y
  }

  function MergeSlots(xs: seq<Slot>, ys: seq<Slot>): (zs: seq<Slot>)
    requires |xs| == |ys|
    ensures |zs| == |xs|
    ensures forall i :: 0 <= i < |xs| ==> zs[i] == MergeSlot(xs[i], ys[i])
    decreases ys, 0
  {
    if ys == [] then [] else [MergeSlot(xs[0], ys[0])] + MergeSlots(xs[1..], ys[1..])
  }

  function Merge(x: Msg, y: Msg): Msg
    decreases y, 0
  {
    Msg(if |x.slots| == |y.slots| then MergeSlots(x.slots, y.slots) else y.slots, x.unknown + y.unknown)
  }

  // ---------------------------------------------------------------- parsing

  function WireType(k: Kind): nat {
    if k.KUint32? then WT_VARINT else WT_LENGTH
  }

  /** Field numbers the switch has a case for, with the wire type that case accepts. */
  predicate Recognised(sc: Schema, tag: nat) {
    1 <= tag / 8 <= |sc.fields| && tag % 8 == WireType(sc.fields[tag / 8 - 1])
  }

  /** Ended: `legit` tells whether the end of the window was reached, `rest` what is unread. */
  datatype Parsed = Failed | Ended(msg: Msg, rest: Bytes, legit: bool)

  datatype MsgRead = NoMsg | GotMsg(msg: Msg, rest: Bytes)

  datatype SlotRead = NoSlot | GotSlot(slot: Slot, rest: Bytes)

  /** What one turn of the loop does: it stops, or goes on with the rest of the input. */
  datatype Turn = Stop(result: Parsed) | GoOn(msg: Msg, rest: Bytes)

  /** The window of a nested message: its declared length, cut at the enclosing limit. */
  function Window(length: nat, s: Bytes): (n: nat)
    ensures n <= |s| && n <= length
  {
    if length <= |s| then length else |s|
  }

  /** A nested message must have ended at its limit; the rest follows that limit. */
  function Finish(p: Parsed, rest: Bytes): MsgRead {
    if p.Ended? && p.legit then GotMsg(p.msg, rest) else NoMsg
  }

  /** Reads a length and then a nested message into `m`. */
  function ReadMessage(sub: Schema, m: Msg, s: Bytes, depth: nat): (r: MsgRead)
    ensures r.GotMsg? ==> |r.rest| < |s|
    decreases |s|, 0
  {
    match ReadVarint32(s)
    case NoNumber => NoMsg
    case Number(length, rest) =>
      if depth == 0 then NoMsg
      else Finish(Parse(sub, m, rest[..Window(length, rest)], depth - 1), rest[Window(length, rest)..])
  }

  /** The message that a nested field is read into. */
  function Target(sub: Schema, slot: Slot): Msg {
    if slot.MessageSlot? then slot.msg else Default(sub)
  }

  function BytesInto(r: BytesRead): SlotRead {
    match r
    case NoBytes => NoSlot
    case GotBytes(b, rest) => GotSlot(BytesSlot(b), rest)
  }

  function NumberInto(r: NumberRead): SlotRead {
    match r
    case NoNumber => NoSlot
    case Number(v, rest) => GotSlot(UintSlot(v), rest)
  }

  function MessageInto(r: MsgRead): SlotRead {
    match r
    case NoMsg => NoSlot
    case GotMsg(m, rest) => GotSlot(MessageSlot(m), rest)
  }

  function Items(slot: Slot): seq<Msg> {
    if slot.ListSlot? then slot.msgs else []
  }

  function ElementInto(slot: Slot, r: MsgRead): SlotRead {
    match r
    case NoMsg => NoSlot
    case GotMsg(m, rest) => GotSlot(ListSlot(Items(slot) + [m]), rest)
  }

  function ReadSlot(k: Kind, slot: Slot, s: Bytes, depth: nat): (r: SlotRead)
    ensures r.GotSlot? ==> |r.rest| < |s|
    decreases |s|, 1
  {
    match k
    case KBytes => BytesInto(ReadBytes(s))
    case KUint32 => NumberInto(ReadVarint32(s))
    case KMessage(sub) => MessageInto(ReadMessage(sub, Target(sub, slot), s, depth))
    case KRepeated(sub) => ElementInto(slot, ReadMessage(sub, Default(sub), s, depth))
  }

  function Store(m: Msg, i: nat, r: SlotRead): Turn
    requires i < |m.slots|
  {
    match r
    case NoSlot => Stop(Failed)
    case GotSlot(slot, rest) => GoOn(Put(m, i, slot), rest)
  }

  function Keep(m: Msg, r: FieldRead): Turn {
    match r
    case NoField => Stop(Failed)
    case GotField(u, rest) => GoOn(m.(unknown := m.unknown + [u]), rest)
  }

  /** The switch: a case of its own, the end of a group, or a field to be skipped. */
  function HandleField(sc: Schema, m: Msg, tag: nat, s: Bytes, depth: nat): (t: Turn)
    ensures t.GoOn? ==> |t.rest| <= |s|
    decreases |s|, 2
  {
    if Recognised(sc, tag) then
      if tag / 8 <= |m.slots| then
        Store(m, tag / 8 - 1, ReadSlot(sc.fields[tag / 8 - 1], m.slots[tag / 8 - 1], s, depth))
      else Stop(Failed)
    else if tag % 8 == WT_END_GROUP then Stop(Ended(m, s, false))
    else Keep(m, SkipField(tag, s, depth))
  }

  function TakeTurn(sc: Schema, m: Msg, s: Bytes, depth: nat): (t: Turn)
    ensures t.GoOn? ==> |t.rest| < |s|
    ensures t.Stop? && t.result.Ended? && t.result.legit ==> t.result.rest == []
    decreases |s|, 3
  {
    match ReadTag(s)
    case End => Stop(Ended(m, [], true))
    case Zero => Stop(Ended(m, s, false))
    case Tag(tag, rest) => HandleField(sc, m, tag, rest, depth)
  }

  function Parse(sc: Schema, m: Msg, s: Bytes, depth: nat): (r: Parsed)
    ensures r.Ended? && r.legit ==> r.rest == []
    decreases |s|, 4
  {
    match TakeTurn(sc, m, s, depth)
    case Stop(result) => result
    case GoOn(m', rest) => Parse(sc, m', rest, depth)
  }

  /** A whole byte string read as one message; nothing is said of strings that are longer
      than a stream is meant to read. */
  function ParseWhole(sc: Schema, s: Bytes): (r: Option<Msg>)
    requires |s| <= TOTAL_BYTES_LIMIT
  {
    var p := Parse(sc, Default(sc), s, RECURSION_LIMIT);
    if p.Ended? && p.legit then Some(p.msg) else None
  }

  // ---------------------------------------------------------------- serializing

  function FieldTag(k: Kind, number: nat): Bytes {
    Varint(MakeTag(number, WireType(k)))
  }

  function SerializeList(tag: Bytes, sub: Schema, ms: seq<Msg>): Bytes
    decreases ms, 0
  {
    if ms == [] then [] else tag + Delimited(Serialize(sub, ms[0])) + SerializeList(tag, sub, ms[1..])
  }

  function SerializeSlot(k: Kind, number: nat, slot: Slot): Bytes
    decreases slot, 0
  {
    match slot
    case Unset => []
    case BytesSlot(b) => FieldTag(k, number) + Delimited(b)
    case UintSlot(v) => FieldTag(k, number) + Varint(v)
    case MessageSlot(m) => if k.KMessage? then FieldTag(k, number) + Delimited(Serialize(k.sub, m)) else []
    case ListSlot(ms) => if k.KRepeated? then SerializeList(FieldTag(k, number), k.sub, ms) else []
  }

  /** `number` is the field number of the first slot. */
  function SerializeSlots(ks: seq<Kind>, number: nat, slots: seq<Slot>): Bytes
    requires |ks| == |slots|
    decreases slots, 0
  {
    if slots == [] then []
    else SerializeSlot(ks[0], number, slots[0]) + SerializeSlots(ks[1..], number + 1, slots[1..])
  }

  /** The known fields in field order, then the unknown ones in arrival order. */
  function Serialize(sc: Schema, m: Msg): Bytes
    decreases m, 0
  {
    (if |sc.fields| == |m.slots| then SerializeSlots(sc.fields, 1, m.slots) else []) + SerializeUnknowns(m.unknown)
  }

  // ---------------------------------------------------------------- messages that can be written

  /** Lengths fit a 32-bit prefix, and fixed-width unknown fields have their width. */
  ghost predicate WritableSlot(k: Kind, slot: Slot)
    decreases slot, 0
  {
    match slot
    case Unset => true
    case BytesSlot(b) => |b| < TWO_32
    case UintSlot(_) => true
    case MessageSlot(m) => k.KMessage? && WritableNested(k.sub, m)
    case ListSlot(ms) => k.KRepeated? && forall i :: 0 <= i < |ms| ==> WritableNested(k.sub, ms[i])
  }

  ghost predicate WritableNested(sub: Schema, m: Msg)
    decreases m, 1
  {
    |Serialize(sub, m)| < TWO_32 && Writable(sub, m)
  }

  ghost predicate Writable(sc: Schema, m: Msg)
    decreases m, 0
  {
    && Fits(sc, m)
    && (forall i :: 0 <= i < |m.slots| ==> WritableSlot(sc.fields[i], m.slots[i]))
    && AllWellSized(m.unknown)
  }

  // ---------------------------------------------------------------- messages that can be sent

  /** Lengths fit a 32-bit prefix, nesting fits the recursion limit, and no unknown
      field has a number and wire type that the message itself recognises. */
  ghost predicate EncodableSlot(k: Kind, slot: Slot, depth: nat)
    decreases slot, 0
  {
    match slot
    case Unset => true
    case BytesSlot(b) => |b| < TWO_32
    case UintSlot(_) => true
    case MessageSlot(m) => k.KMessage? && EncodableNested(k.sub, m, depth)
    case ListSlot(ms) => k.KRepeated? && forall i :: 0 <= i < |ms| ==> EncodableNested(k.sub, ms[i], depth)
  }

  ghost predicate EncodableNested(sub: Schema, m: Msg, depth: nat)
    decreases m, 1
  {
    depth > 0 && |Serialize(sub, m)| < TWO_32 && Encodable(sub, m, depth - 1)
  }

  ghost predicate Encodable(sc: Schema, m: Msg, depth: nat)
    decreases m, 0
  {
    && Fits(sc, m)
    && MakeTag(|sc.fields|, WT_LENGTH) < TWO_32
    && (forall i :: 0 <= i < |m.slots| ==> EncodableSlot(sc.fields[i], m.slots[i], depth))
    && AllStorable(m.unknown, depth)
    && NoneRecognised(sc, m.unknown)
  }

  lemma {:induction false} EncodableIsWritable(sc: Schema, m: Msg, depth: nat)
    requires Encodable(sc, m, depth)
    ensures Writable(sc, m)
    decreases m, 1
  {
    forall i | 0 <= i < |m.slots|
      ensures WritableSlot(sc.fields[i], m.slots[i])
    {
      SlotIsWritable(sc.fields[i], m.slots[i], depth);
    }
    StorableIsWellSized(m.unknown, depth);
  }

  lemma {:induction false} SlotIsWritable(k: Kind, slot: Slot, depth: nat)
    requires EncodableSlot(k, slot, depth)
    ensures WritableSlot(k, slot)
    decreases slot, 0
  {
    if slot.MessageSlot? {
      EncodableIsWritable(k.sub, slot.msg, depth - 1);
    } else if slot.ListSlot? {
      forall i | 0 <= i < |slot.msgs|
        ensures WritableNested(k.sub, slot.msgs[i])
      {
        EncodableIsWritable(k.sub, slot.msgs[i], depth - 1);
      }
    }
  }

  ghost predicate NoneRecognised(sc: Schema, us: seq<Unknown>) {
    forall i :: 0 <= i < |us| ==> !Recognised(sc, MakeTag(us[i].number, WireTypeOf(us[i])))
  }

  /** Every field number of the message and of its nested messages is below 16. */
  predicate OneByteTags(sc: Schema) {
    |sc.fields| <= 15 && forall i :: 0 <= i < |sc.fields| ==> OneByteKind(sc.fields[i])
  }

  predicate OneByteKind(k: Kind) {
    match k
    case KBytes => true
    case KUint32 => true
    case KMessage(sub) => OneByteTags(sub)
    case KRepeated(sub) => OneByteTags(sub)
  }
}
