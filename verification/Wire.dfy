/** The byte-level primitives of the protocol buffer encoding that the generated
    code in common/common.pb.cc calls: base-128 varints, tags, length-delimited
    records and the skipping of unrecognised fields.  Every reader is a function
    from the unread bytes of the current window to what was read and what is left. */
module Wire {
  type Byte = b: int | 0 <= b < 256
  type Bytes = seq<Byte>

  const TWO_32: nat := 0x1_0000_0000
  const TWO_64: nat := 0x1_0000_0000_0000_0000
  const MAX_VARINT_BYTES: nat := 10

  const WT_VARINT: nat := 0
  const WT_FIXED64: nat := 1
  const WT_LENGTH: nat := 2
  const WT_START_GROUP: nat := 3
  const WT_END_GROUP: nat := 4
  const WT_FIXED32: nat := 5

  // ---------------------------------------------------------------- varints

  datatype NumberRead = NoNumber | Number(value: nat, rest: Bytes)

  function Varint(n: nat): (s: Bytes)
    ensures |s| >= 1
  {
    if n < 128 then [n] else [128 + n % 128] + Varint(n / 128)
  }

  /** At most `budget` bytes are read; a varint that is still unfinished then is malformed. */
  function ReadGroups(s: Bytes, budget: nat): (r: NumberRead)
    ensures r.Number? ==> |r.rest| < |s|
  {
    if budget == 0 || s == [] then NoNumber
    else if s[0] < 128 then Number(s[0], s[1..])
    else
      match ReadGroups(s[1..], budget - 1)
      case NoNumber => NoNumber
      case Number(high, rest) => Number(s[0] - 128 + 128 * high, rest)
  }

  /** A cast to a narrower unsigned integer. */
  function Truncate(v: nat, modulus: nat): (r: nat)
    requires modulus > 0
    ensures r < modulus
    ensures v < modulus ==> r == v
  {
    v % modulus
  }

  function ReadVarint64(s: Bytes): (r: NumberRead)
    ensures r.Number? ==> |r.rest| < |s| && r.value < TWO_64
  {
    match ReadGroups(s, MAX_VARINT_BYTES)
    case NoNumber => NoNumber
    case Number(v, rest) => Number(Truncate(v, TWO_64), rest)
  }

  /** Reads a whole varint and keeps its low 32 bits. */
  function ReadVarint32(s: Bytes): (r: NumberRead)
    ensures r.Number? ==> |r.rest| < |s| && r.value < TWO_32
  {
    match ReadVarint64(s)
    case NoNumber => NoNumber
    case Number(v, rest) => Number(Truncate(v, TWO_32), rest)
  }

  ghost function Pow128(k: nat): (p: nat)
    ensures p >= 1
  {
    if k == 0 then 1 else 128 * Pow128(k - 1)
  }

  lemma {:induction false} ReadGroupsVarint(n: nat, rest: Bytes, budget: nat)
    requires n < Pow128(budget) && budget > 0
    ensures ReadGroups(Varint(n) + rest, budget) == Number(n, rest)
    decreases budget
  {
    var s := Varint(n) + rest;
    if n < 128 {
      assert s[1..] == rest;
    } else {
      assert n / 128 < Pow128(budget - 1);
      assert s[1..] == Varint(n / 128) + rest;
      ReadGroupsVarint(n / 128, rest, budget - 1);
    }
  }

  lemma Pow128Ten()
    ensures Pow128(MAX_VARINT_BYTES) == 64 * TWO_64
  {
    assert Pow128(2) == 0x4000;
    assert Pow128(4) == 0x1000_0000;
    assert Pow128(6) == 0x400_0000_0000;
    assert Pow128(8) == 0x100_0000_0000_0000;
    assert Pow128(10) == 128 * Pow128(9);
  }

  lemma ReadVarint64Varint(n: nat, rest: Bytes)
    requires n < TWO_64
    ensures ReadVarint64(Varint(n) + rest) == Number(n, rest)
  {
    Pow128Ten();
    ReadGroupsVarint(n, rest, MAX_VARINT_BYTES);
  }

  lemma ReadVarint32Varint(n: nat, rest: Bytes)
    requires n < TWO_32
    ensures ReadVarint32(Varint(n) + rest) == Number(n, rest)
  {
    ReadVarint64Varint(n, rest);
  }

  /** What has been read stays read when more input follows. */
  lemma {:induction false} ReadGroupsExtends(s: Bytes, more: Bytes, budget: nat)
    requires ReadGroups(s, budget).Number?
    ensures ReadGroups(s + more, budget) == Number(ReadGroups(s, budget).value, ReadGroups(s, budget).rest + more)
    decreases budget
  {
    assert (s + more)[1..] == s[1..] + more;
    if s[0] >= 128 {
      ReadGroupsExtends(s[1..], more, budget - 1);
    }
  }

  lemma ReadVarint64Extends(s: Bytes, more: Bytes)
    requires ReadVarint64(s).Number?
    ensures ReadVarint64(s + more) == Number(ReadVarint64(s).value, ReadVarint64(s).rest + more)
  {
    ReadGroupsExtends(s, more, MAX_VARINT_BYTES);
  }

  lemma ReadVarint32Extends(s: Bytes, more: Bytes)
    requires ReadVarint32(s).Number?
    ensures ReadVarint32(s + more) == Number(ReadVarint32(s).value, ReadVarint32(s).rest + more)
  {
    ReadVarint64Extends(s, more);
  }

  // ---------------------------------------------------------------- tags

  function MakeTag(number: nat, wireType: nat): nat {
    8 * number + wireType
  }

  /** End: no byte is left in the window.  Zero: the reader returns 0 without being
      at the end, because the varint is malformed or its low 32 bits are 0. */
  datatype TagRead = End | Zero | Tag(tag: nat, rest: Bytes)

  function ReadTag(s: Bytes): (r: TagRead)
    ensures r.End? <==> s == []
    ensures r.Tag? ==> 0 < r.tag < TWO_32 && |r.rest| < |s|
  {
    if s == [] then End
    else
      match ReadVarint32(s)
      case NoNumber => Zero
      case Number(t, rest) => if t == 0 then Zero else Tag(t, rest)
  }

  lemma ReadTagMade(number: nat, wireType: nat, rest: Bytes)
    requires wireType < 8 && 0 < MakeTag(number, wireType) < TWO_32
    ensures ReadTag(Varint(MakeTag(number, wireType)) + rest) == Tag(MakeTag(number, wireType), rest)
    ensures MakeTag(number, wireType) / 8 == number && MakeTag(number, wireType) % 8 == wireType
  {
    ReadVarint32Varint(MakeTag(number, wireType), rest);
  }

  lemma ReadTagExtends(s: Bytes, more: Bytes)
    requires ReadTag(s).Tag?
    ensures ReadTag(s + more) == Tag(ReadTag(s).tag, ReadTag(s).rest + more)
  {
    ReadVarint32Extends(s, more);
  }

  // ---------------------------------------------------------------- length-delimited records

  datatype BytesRead = NoBytes | GotBytes(bytes: Bytes, rest: Bytes)

  function Delimited(b: Bytes): Bytes {
    Varint(|b|) + b
  }

  /** `width` raw bytes. */
  function ReadRaw(s: Bytes, width: nat): (r: BytesRead)
    ensures r.GotBytes? ==> |r.bytes| == width && |r.rest| <= |s|
  {
    if width <= |s| then GotBytes(s[..width], s[width..]) else NoBytes
  }

  /** The record's length must fit the window. */
  function ReadBytes(s: Bytes): (r: BytesRead)
    ensures r.GotBytes? ==> |r.rest| < |s|
  {
    match ReadVarint32(s)
    case NoNumber => NoBytes
    case Number(n, rest) => ReadRaw(rest, n)
  }

  lemma ReadRawPrinted(b: Bytes, rest: Bytes)
    ensures ReadRaw(b + rest, |b|) == GotBytes(b, rest)
  {
  }

  lemma ReadBytesDelimited(b: Bytes, rest: Bytes)
    requires |b| < TWO_32
    ensures ReadBytes(Delimited(b) + rest) == GotBytes(b, rest)
  {
    assert Delimited(b) + rest == Varint(|b|) + (b + rest);
    ReadVarint32Varint(|b|, b + rest);
    ReadRawPrinted(b, rest);
  }

  lemma ReadRawExtends(s: Bytes, width: nat, more: Bytes)
    requires ReadRaw(s, width).GotBytes?
    ensures ReadRaw(s + more, width) == GotBytes(ReadRaw(s, width).bytes, ReadRaw(s, width).rest + more)
  {
    assert (s + more)[..width] == s[..width] && (s + more)[width..] == s[width..] + more;
  }

  lemma ReadBytesExtends(s: Bytes, more: Bytes)
    requires ReadBytes(s).GotBytes?
    ensures ReadBytes(s + more) == GotBytes(ReadBytes(s).bytes, ReadBytes(s).rest + more)
  {
    ReadVarint32Extends(s, more);
    ReadRawExtends(ReadVarint32(s).rest, ReadVarint32(s).value, more);
  }

  // ---------------------------------------------------------------- unknown fields

  datatype Unknown =
    | UVarint(number: nat, value: nat)
    | UFixed64(number: nat, fixed: Bytes)
    | UBytes(number: nat, bytes: Bytes)
    | UGroup(number: nat, fields: seq<Unknown>)
    | UFixed32(number: nat, fixed: Bytes)

  function WireTypeOf(u: Unknown): nat {
    match u
    case UVarint(_, _) => WT_VARINT
    case UFixed64(_, _) => WT_FIXED64
    case UBytes(_, _) => WT_LENGTH
    case UGroup(_, _) => WT_START_GROUP
    case UFixed32(_, _) => WT_FIXED32
  }

  function SerializeUnknown(u: Unknown): Bytes
    decreases u, 1
  {
    Varint(MakeTag(u.number, WireTypeOf(u))) + SerializeUnknownValue(u)
  }

  function SerializeUnknownValue(u: Unknown): Bytes
    decreases u, 0
  {
    match u
    case UVarint(_, v) => Varint(v)
    case UFixed64(_, f) => f
    case UBytes(_, b) => Delimited(b)
    case UGroup(n, fs) => SerializeUnknowns(fs) + Varint(MakeTag(n, WT_END_GROUP))
    case UFixed32(_, f) => f
  }

  function SerializeUnknowns(us: seq<Unknown>): Bytes
    decreases us, 0
  {
    if us == [] then [] else SerializeUnknown(us[0]) + SerializeUnknowns(us[1..])
  }

  datatype FieldRead = NoField | GotField(field: Unknown, rest: Bytes)

  /** The second component is the last tag read, 0 when there was none to read. */
  datatype GroupRead = NoGroup | GotGroup(fields: seq<Unknown>, last: nat, rest: Bytes)

  /** A field value that was not recognised is kept; `depth` groups may still be opened. */
  function SkipField(tag: nat, s: Bytes, depth: nat): (r: FieldRead)
    ensures r.GotField? ==> |r.rest| <= |s|
    decreases |s|, 1
  {
    if tag % 8 == WT_START_GROUP then
      if depth == 0 then NoField
      else CloseGroup(tag / 8, SkipMessage(s, depth - 1))
    else SkipFlat(tag / 8, tag % 8, s)
  }

  /** The tag that ends a group must carry the group's own number. */
  function CloseGroup(number: nat, r: GroupRead): FieldRead {
    if r.GotGroup? && r.last == MakeTag(number, WT_END_GROUP) then GotField(UGroup(number, r.fields), r.rest)
    else NoField
  }

  function SkipFlat(number: nat, wireType: nat, s: Bytes): (r: FieldRead)
    ensures r.GotField? ==> |r.rest| <= |s|
  {
    if wireType == WT_VARINT then
      match ReadVarint64(s)
      case NoNumber => NoField
      case Number(v, rest) => GotField(UVarint(number, v), rest)
    else if wireType == WT_FIXED64 then
      match ReadRaw(s, 8)
      case NoBytes => NoField
      case GotBytes(f, rest) => GotField(UFixed64(number, f), rest)
    else if wireType == WT_LENGTH then
      match ReadBytes(s)
      case NoBytes => NoField
      case GotBytes(b, rest) => GotField(UBytes(number, b), rest)
    else if wireType == WT_FIXED32 then
      match ReadRaw(s, 4)
      case NoBytes => NoField
      case GotBytes(f, rest) => GotField(UFixed32(number, f), rest)
    else NoField
  }

  /** Collects fields until an end-group tag or the end of the window. */
  function SkipMessage(s: Bytes, depth: nat): (r: GroupRead)
    ensures r.GotGroup? ==> |r.rest| <= |s|
    decreases |s|, 0
  {
    match ReadTag(s)
    case End => GotGroup([], 0, s)
    case Zero => GotGroup([], 0, s)
    case Tag(t, rest) =>
      if t % 8 == WT_END_GROUP then GotGroup([], t, rest)
      else
        match SkipField(t, rest, depth)
        case NoField => NoGroup
        case GotField(u, rest') => Prepend(u, SkipMessage(rest', depth))
  }

  function Prepend(u: Unknown, r: GroupRead): GroupRead {
    match r
    case NoGroup => NoGroup
    case GotGroup(us, last, rest) => GotGroup([u] + us, last, rest)
  }

  lemma SkipFlatExtends(number: nat, wireType: nat, s: Bytes, more: Bytes)
    requires SkipFlat(number, wireType, s).GotField?
    ensures SkipFlat(number, wireType, s + more)
         == GotField(SkipFlat(number, wireType, s).field, SkipFlat(number, wireType, s).rest + more)
  {
    if wireType == WT_VARINT {
      ReadVarint64Extends(s, more);
    } else if wireType == WT_LENGTH {
      ReadBytesExtends(s, more);
    } else {
      ReadRawExtends(s, if wireType == WT_FIXED64 then 8 else 4, more);
    }
  }

  lemma {:induction false} SkipFieldExtends(tag: nat, s: Bytes, depth: nat, more: Bytes)
    requires SkipField(tag, s, depth).GotField?
    ensures SkipField(tag, s + more, depth)
              == GotField(SkipField(tag, s, depth).field, SkipField(tag, s, depth).rest + more)
    decreases |s|, 1
  {
    if tag % 8 == WT_START_GROUP {
      SkipMessageExtends(s, depth - 1, more);
    } else {
      SkipFlatExtends(tag / 8, tag % 8, s, more);
    }
  }

  lemma {:induction false} SkipMessageExtends(s: Bytes, depth: nat, more: Bytes)
    requires SkipMessage(s, depth).GotGroup? && SkipMessage(s, depth).last != 0
    ensures var r := SkipMessage(s, depth); SkipMessage(s + more, depth) == GotGroup(r.fields, r.last, r.rest + more)
    decreases |s|, 0
  {
    ReadTagExtends(s, more);
    var t, rest := ReadTag(s).tag, ReadTag(s).rest;
    if t % 8 != WT_END_GROUP {
      SkipFieldExtends(t, rest, depth, more);
      SkipMessageExtends(SkipField(t, rest, depth).rest, depth, more);
    }
  }

  // ---------------------------------------------------------------- unknown fields: round trip

  /** The unknown fields a parser can have produced with `depth` groups allowed. */
  ghost predicate Storable(u: Unknown, depth: nat)
    decreases u, 0
  {
    0 < MakeTag(u.number, WireTypeOf(u)) && MakeTag(u.number, WT_FIXED32) < TWO_32 &&
    match u
    case UVarint(_, v) => v < TWO_64
    case UFixed64(_, f) => |f| == 8
    case UBytes(_, b) => |b| < TWO_32
    case UGroup(_, fs) => depth > 0 && AllStorable(fs, depth - 1)
    case UFixed32(_, f) => |f| == 4
  }

  ghost predicate AllStorable(us: seq<Unknown>, depth: nat)
    decreases us, 0
  {
    forall i :: 0 <= i < |us| ==> Storable(us[i], depth)
  }

  /** Fixed-width fields have their width. */
  ghost predicate WellSized(u: Unknown)
    decreases u, 0
  {
    match u
    case UFixed64(_, f) => |f| == 8
    case UFixed32(_, f) => |f| == 4
    case UGroup(_, fs) => AllWellSized(fs)
    case _ => true
  }

  ghost predicate AllWellSized(us: seq<Unknown>)
    decreases us, 0
  {
    forall i :: 0 <= i < |us| ==> WellSized(us[i])
  }

  lemma {:induction false} StorableIsWellSized(us: seq<Unknown>, depth: nat)
    requires AllStorable(us, depth)
    ensures AllWellSized(us)
    decreases us
  {
    forall i | 0 <= i < |us|
      ensures WellSized(us[i])
    {
      assert Storable(us[i], depth);
      if us[i].UGroup? {
        StorableIsWellSized(us[i].fields, depth - 1);
      }
    }
  }

  lemma SkipFlatRoundTrip(u: Unknown, depth: nat, rest: Bytes)
    requires Storable(u, depth) && !u.UGroup?
    ensures SkipFlat(u.number, WireTypeOf(u), SerializeUnknownValue(u) + rest) == GotField(u, rest)
  {
    if u.UVarint? {
      ReadVarint64Varint(u.value, rest);
    } else if u.UBytes? {
      ReadBytesDelimited(u.bytes, rest);
    } else {
      ReadRawPrinted(u.fixed, rest);
    }
  }

  lemma {:induction false} SkipFieldRoundTrip(u: Unknown, depth: nat, rest: Bytes)
    requires Storable(u, depth)
    ensures SkipField(MakeTag(u.number, WireTypeOf(u)), SerializeUnknownValue(u) + rest, depth) == GotField(u, rest)
    decreases u, 0
  {
    var tag := MakeTag(u.number, WireTypeOf(u));
    assert tag / 8 == u.number && tag % 8 == WireTypeOf(u);
    if u.UGroup? {
      SkipMessageRoundTrip(u.fields, u.number, depth - 1, rest);
      assert SerializeUnknownValue(u) + rest
          == SerializeUnknowns(u.fields) + (Varint(MakeTag(u.number, WT_END_GROUP)) + rest);
    } else {
      SkipFlatRoundTrip(u, depth, rest);
    }
  }

  lemma ReadTagUnknown(u: Unknown, depth: nat, tail: Bytes)
    requires Storable(u, depth)
    ensures ReadTag(SerializeUnknown(u) + tail)
         == Tag(MakeTag(u.number, WireTypeOf(u)), SerializeUnknownValue(u) + tail)
    ensures MakeTag(u.number, WireTypeOf(u)) % 8 == WireTypeOf(u)
    ensures MakeTag(u.number, WireTypeOf(u)) / 8 == u.number
  {
    var tag := MakeTag(u.number, WireTypeOf(u));
    assert SerializeUnknown(u) + tail == Varint(tag) + (SerializeUnknownValue(u) + tail);
    ReadTagMade(u.number, WireTypeOf(u), SerializeUnknownValue(u) + tail);
  }

  lemma {:induction false} SkipMessageRoundTrip(us: seq<Unknown>, number: nat, depth: nat, rest: Bytes)
    requires AllStorable(us, depth)
    requires MakeTag(number, WT_FIXED32) < TWO_32
    ensures SkipMessage(SerializeUnknowns(us) + (Varint(MakeTag(number, WT_END_GROUP)) + rest), depth)
         == GotGroup(us, MakeTag(number, WT_END_GROUP), rest)
    decreases us, 0
  {
    hide ReadTag, SkipField, SerializeUnknown, Varint, Storable;
    var close := Varint(MakeTag(number, WT_END_GROUP)) + rest;
    if us == [] {
      assert SerializeUnknowns(us) + close == close;
      ReadTagMade(number, WT_END_GROUP, rest);
    } else {
      var u := us[0];
      assert Storable(u, depth) && AllStorable(us[1..], depth);
      var tail := SerializeUnknowns(us[1..]) + close;
      SkipMessageRoundTrip(us[1..], number, depth, rest);
      var s := SerializeUnknown(u) + tail;
      assert SerializeUnknowns(us) + close == s;
      ReadTagUnknown(u, depth, tail);
      SkipFieldRoundTrip(u, depth, tail);
      SkipMessageStep(s, u, depth, tail);
      assert [u] + us[1..] == us;
    }
  }

  lemma SkipMessageStep(s: Bytes, u: Unknown, depth: nat, tail: Bytes)
    requires ReadTag(s).Tag? && ReadTag(s).tag % 8 != WT_END_GROUP
    requires SkipField(ReadTag(s).tag, ReadTag(s).rest, depth) == GotField(u, tail)
    ensures SkipMessage(s, depth) == Prepend(u, SkipMessage(tail, depth))
  {
  }
}
