/** Parsing x followed by y against merging the two parses. */
module MergeLaw {
  import opened Wrappers
  import opened Wire
  import opened Message

  // ---------------------------------------------------------------- parsing keeps messages well-formed

  lemma DefaultFits(sc: Schema)
    ensures Fits(sc, Default(sc))
  {
  }

  lemma {:induction false} ReadMessageFits(sub: Schema, m: Msg, s: Bytes, depth: nat)
    requires Fits(sub, m) && ReadMessage(sub, m, s, depth).GotMsg?
    ensures Fits(sub, ReadMessage(sub, m, s, depth).msg)
    decreases |s|, 0
  {
    var length, rest := ReadVarint32(s).value, ReadVarint32(s).rest;
    ParseFits(sub, m, rest[..Window(length, rest)], depth - 1);
  }

  lemma {:induction false} ReadSlotFits(k: Kind, slot: Slot, s: Bytes, depth: nat)
    requires FitsSlot(k, slot) && ReadSlot(k, slot, s, depth).GotSlot?
    ensures FitsSlot(k, ReadSlot(k, slot, s, depth).slot)
    decreases |s|, 1
  {
    if k.KMessage? {
      ReadMessageFits(k.sub, Target(k.sub, slot), s, depth);
    } else if k.KRepeated? {
      ReadMessageFits(k.sub, Default(k.sub), s, depth);
    }
  }

  lemma {:induction false} HandleFieldFits(sc: Schema, m: Msg, tag: nat, s: Bytes, depth: nat)
    requires Fits(sc, m)
    ensures var t := HandleField(sc, m, tag, s, depth);
            (t.GoOn? ==> Fits(sc, t.msg)) && (t.Stop? && t.result.Ended? ==> Fits(sc, t.result.msg))
    decreases |s|, 2
  {
    if Recognised(sc, tag) {
      var i := tag / 8 - 1;
      if ReadSlot(sc.fields[i], m.slots[i], s, depth).GotSlot? {
        ReadSlotFits(sc.fields[i], m.slots[i], s, depth);
      }
    }
  }

  lemma {:induction false} TakeTurnFits(sc: Schema, m: Msg, s: Bytes, depth: nat)
    requires Fits(sc, m)
    ensures var t := TakeTurn(sc, m, s, depth);
            (t.GoOn? ==> Fits(sc, t.msg)) && (t.Stop? && t.result.Ended? ==> Fits(sc, t.result.msg))
    decreases |s|, 3
  {
    if ReadTag(s).Tag? {
      HandleFieldFits(sc, m, ReadTag(s).tag, ReadTag(s).rest, depth);
    }
  }

  lemma {:induction false} ParseFits(sc: Schema, m: Msg, s: Bytes, depth: nat)
    requires Fits(sc, m) && Parse(sc, m, s, depth).Ended?
    ensures Fits(sc, Parse(sc, m, s, depth).msg)
    decreases |s|, 4
  {
    TakeTurnFits(sc, m, s, depth);
    var t := TakeTurn(sc, m, s, depth);
    if t.GoOn? {
      ParseFits(sc, t.msg, t.rest, depth);
    }
  }

  // ---------------------------------------------------------------- the default message is neutral

  lemma MergeDefaultRight(sc: Schema, m: Msg)
    requires Fits(sc, m)
    ensures Merge(m, Default(sc)) == m
  {
    var merged := Merge(m, Default(sc));
    forall i | 0 <= i < |m.slots|
      ensures merged.slots[i] == m.slots[i]
    {
      assert FitsSlot(sc.fields[i], m.slots[i]);
      assert MergeSlot(m.slots[i], DefaultSlot(sc.fields[i])) == m.slots[i];
    }
    assert merged.slots == m.slots;
  }

  lemma MergeDefaultLeft(sc: Schema, m: Msg)
    requires Fits(sc, m)
    ensures Merge(Default(sc), m) == m
  {
    var merged := Merge(Default(sc), m);
    forall i | 0 <= i < |m.slots|
      ensures merged.slots[i] == m.slots[i]
    {
      assert FitsSlot(sc.fields[i], m.slots[i]);
      assert MergeSlot(DefaultSlot(sc.fields[i]), m.slots[i]) == m.slots[i];
    }
    assert merged.slots == m.slots;
  }

  // ---------------------------------------------------------------- parsing into a merge

  /** Merging `a` in front of what a read returned. */
  function Before(a: Msg, r: Parsed): Parsed {
    match r
    case Failed => Failed
    case Ended(m, rest, legit) => Ended(Merge(a, m), rest, legit)
  }

  function BeforeMsg(a: Msg, r: MsgRead): MsgRead {
    match r
    case NoMsg => NoMsg
    case GotMsg(m, rest) => GotMsg(Merge(a, m), rest)
  }

  function BeforeSlot(x: Slot, r: SlotRead): SlotRead {
    match r
    case NoSlot => NoSlot
    case GotSlot(z, rest) => GotSlot(MergeSlot(x, z), rest)
  }

  function BeforeTurn(a: Msg, t: Turn): Turn {
    match t
    case Stop(r) => Stop(Before(a, r))
    case GoOn(m, rest) => GoOn(Merge(a, m), rest)
  }

  lemma {:induction false} ReadMessageMerge(sub: Schema, a: Msg, c: Msg, ac: Msg, s: Bytes, depth: nat)
    requires Fits(sub, a) && Fits(sub, c) && ac == Merge(a, c)
    ensures ReadMessage(sub, ac, s, depth) == BeforeMsg(a, ReadMessage(sub, c, s, depth))
    decreases |s|, 0
  {
    match ReadVarint32(s)
    case NoNumber =>
    case Number(length, rest) =>
      if depth > 0 {
        ParseMerge(sub, a, c, ac, rest[..Window(length, rest)], depth - 1);
      }
  }

  lemma ElementMerge(x: Slot, y: Slot, r: MsgRead)
    requires x.ListSlot? && y.ListSlot?
    ensures ElementInto(MergeSlot(x, y), r) == BeforeSlot(x, ElementInto(y, r))
  {
    match r
    case NoMsg =>
    case GotMsg(m, _) => assert (x.msgs + y.msgs) + [m] == x.msgs + (y.msgs + [m]);
  }

  lemma {:induction false} ReadSlotMerge(k: Kind, x: Slot, y: Slot, xy: Slot, s: Bytes, depth: nat)
    requires FitsSlot(k, x) && FitsSlot(k, y) && xy == MergeSlot(x, y)
    ensures ReadSlot(k, xy, s, depth) == BeforeSlot(x, ReadSlot(k, y, s, depth))
    decreases |s|, 1
  {
    if k.KMessage? {
      if x.MessageSlot? {
        DefaultFits(k.sub);
        MergeDefaultRight(k.sub, x.msg);
        ReadMessageMerge(k.sub, x.msg, Target(k.sub, y), Target(k.sub, xy), s, depth);
      }
    } else if k.KRepeated? {
      ElementMerge(x, y, ReadMessage(k.sub, Default(k.sub), s, depth));
    }
  }

  lemma StoreMerge(a: Msg, c: Msg, ac: Msg, i: nat, r: SlotRead)
    requires ac == Merge(a, c) && |a.slots| == |c.slots| && i < |c.slots|
    ensures Store(ac, i, BeforeSlot(a.slots[i], r)) == BeforeTurn(a, Store(c, i, r))
  {
  }

  lemma KeepMerge(a: Msg, c: Msg, ac: Msg, r: FieldRead)
    requires ac == Merge(a, c) && |a.slots| == |c.slots|
    ensures Keep(ac, r) == BeforeTurn(a, Keep(c, r))
  {
  }

  lemma {:induction false} HandleFieldMerge(sc: Schema, a: Msg, c: Msg, ac: Msg, tag: nat, s: Bytes, depth: nat)
    requires Fits(sc, a) && Fits(sc, c) && ac == Merge(a, c)
    ensures HandleField(sc, ac, tag, s, depth) == BeforeTurn(a, HandleField(sc, c, tag, s, depth))
    decreases |s|, 2
  {
    if Recognised(sc, tag) {
      var i := tag / 8 - 1;
      ReadSlotMerge(sc.fields[i], a.slots[i], c.slots[i], ac.slots[i], s, depth);
      StoreMerge(a, c, ac, i, ReadSlot(sc.fields[i], c.slots[i], s, depth));
    } else if tag % 8 != WT_END_GROUP {
      KeepMerge(a, c, ac, SkipField(tag, s, depth));
    }
  }

  lemma {:induction false} TakeTurnMerge(sc: Schema, a: Msg, c: Msg, ac: Msg, s: Bytes, depth: nat)
    requires Fits(sc, a) && Fits(sc, c) && ac == Merge(a, c)
    ensures TakeTurn(sc, ac, s, depth) == BeforeTurn(a, TakeTurn(sc, c, s, depth))
    decreases |s|, 3
  {
    if ReadTag(s).Tag? {
      HandleFieldMerge(sc, a, c, ac, ReadTag(s).tag, ReadTag(s).rest, depth);
    }
  }

  /** Parsing into a message that already holds `a` merges what is parsed into `a`. */
  lemma {:induction false} ParseMerge(sc: Schema, a: Msg, c: Msg, ac: Msg, s: Bytes, depth: nat)
    requires Fits(sc, a) && Fits(sc, c) && ac == Merge(a, c)
    ensures Parse(sc, ac, s, depth) == Before(a, Parse(sc, c, s, depth))
    decreases |s|, 4
  {
    TakeTurnMerge(sc, a, c, ac, s, depth);
    TakeTurnFits(sc, c, s, depth);
    var t := TakeTurn(sc, c, s, depth);
    if t.GoOn? {
      ParseMerge(sc, a, t.msg, Merge(a, t.msg), t.rest, depth);
    }
  }

  // ---------------------------------------------------------------- more input after a message

  /** Some nested message at the top level of `s` declares more bytes than `s` holds. */
  predicate Overruns(sc: Schema, s: Bytes, depth: nat)
    decreases |s|
  {
    DeclaresTooMuch(sc, ReadTag(s)) ||
    var t := TakeTurn(sc, Default(sc), s, depth);
    t.GoOn? && Overruns(sc, t.rest, depth)
  }

  predicate DeclaresTooMuch(sc: Schema, t: TagRead) {
    && t.Tag?
    && Recognised(sc, t.tag)
    && (sc.fields[t.tag / 8 - 1].KMessage? || sc.fields[t.tag / 8 - 1].KRepeated?)
    && ReadVarint32(t.rest).Number?
    && ReadVarint32(t.rest).value > |ReadVarint32(t.rest).rest|
  }

  /** Where a field ends does not depend on the message it is read into. */
  lemma FieldEnd(sc: Schema, m: Msg, s: Bytes, depth: nat)
    requires Fits(sc, m)
    ensures TakeTurn(sc, m, s, depth) == BeforeTurn(m, TakeTurn(sc, Default(sc), s, depth))
  {
    DefaultFits(sc);
    MergeDefaultRight(sc, m);
    TakeTurnMerge(sc, m, Default(sc), m, s, depth);
  }

  lemma ReadMessageExtends(sub: Schema, m: Msg, s: Bytes, depth: nat, more: Bytes)
    requires ReadMessage(sub, m, s, depth).GotMsg?
    requires ReadVarint32(s).value <= |ReadVarint32(s).rest|
    ensures ReadMessage(sub, m, s + more, depth)
         == GotMsg(ReadMessage(sub, m, s, depth).msg, ReadMessage(sub, m, s, depth).rest + more)
  {
    ReadVarint32Extends(s, more);
    var n, rest := ReadVarint32(s).value, ReadVarint32(s).rest;
    assert (rest + more)[..n] == rest[..n] && (rest + more)[n..] == rest[n..] + more;
  }

  lemma ReadSlotExtends(k: Kind, slot: Slot, s: Bytes, depth: nat, more: Bytes)
    requires ReadSlot(k, slot, s, depth).GotSlot?
    requires k.KMessage? || k.KRepeated? ==> ReadVarint32(s).Number? && ReadVarint32(s).value <= |ReadVarint32(s).rest|
    ensures ReadSlot(k, slot, s + more, depth)
         == GotSlot(ReadSlot(k, slot, s, depth).slot, ReadSlot(k, slot, s, depth).rest + more)
  {
    match k
    case KBytes => ReadBytesExtends(s, more);
    case KUint32 => ReadVarint32Extends(s, more);
    case KMessage(sub) => ReadMessageExtends(sub, Target(sub, slot), s, depth, more);
    case KRepeated(sub) => ReadMessageExtends(sub, Default(sub), s, depth, more);
  }

  lemma TakeTurnExtends(sc: Schema, m: Msg, s: Bytes, depth: nat, more: Bytes)
    requires TakeTurn(sc, m, s, depth).GoOn? && !DeclaresTooMuch(sc, ReadTag(s))
    ensures TakeTurn(sc, m, s + more, depth)
         == GoOn(TakeTurn(sc, m, s, depth).msg, TakeTurn(sc, m, s, depth).rest + more)
  {
    ReadTagExtends(s, more);
    var tag, rest := ReadTag(s).tag, ReadTag(s).rest;
    if Recognised(sc, tag) {
      ReadSlotExtends(sc.fields[tag / 8 - 1], m.slots[tag / 8 - 1], rest, depth, more);
    } else {
      SkipFieldExtends(tag, rest, depth, more);
    }
  }

  /** After a message that does not overrun, the parse goes on with what follows. */
  lemma {:induction false} ParseContinues(sc: Schema, m: Msg, x: Bytes, depth: nat, y: Bytes)
    requires Fits(sc, m)
    requires Parse(sc, m, x, depth).Ended? && Parse(sc, m, x, depth).legit && !Overruns(sc, x, depth)
    ensures Parse(sc, m, x + y, depth) == Parse(sc, Parse(sc, m, x, depth).msg, y, depth)
    decreases |x|
  {
    var t := TakeTurn(sc, m, x, depth);
    if t.Stop? {
      assert x == [] by {
        LegitStop(sc, m, x, depth);
      }
      assert x + y == y;
    } else {
      FieldEnd(sc, m, x, depth);
      TakeTurnExtends(sc, m, x, depth, y);
      TakeTurnFits(sc, m, x, depth);
      ParseContinues(sc, t.msg, t.rest, depth, y);
    }
  }

  lemma LegitStop(sc: Schema, m: Msg, s: Bytes, depth: nat)
    requires TakeTurn(sc, m, s, depth).Stop?
    requires TakeTurn(sc, m, s, depth).result.Ended? && TakeTurn(sc, m, s, depth).result.legit
    ensures s == [] && TakeTurn(sc, m, s, depth).result.msg == m
  {
  }

  // ---------------------------------------------------------------- the law

  /** Concatenating the encodings merges the messages, within the limit of the stream. */
  lemma MergeLawHolds(sc: Schema, x: Bytes, y: Bytes)
    requires |x + y| <= TOTAL_BYTES_LIMIT && ParseWhole(sc, x).Some? && !Overruns(sc, x, RECURSION_LIMIT)
    ensures ParseWhole(sc, x + y).Some? <==> ParseWhole(sc, y).Some?
    ensures ParseWhole(sc, y).Some? ==>
              ParseWhole(sc, x + y).value == Merge(ParseWhole(sc, x).value, ParseWhole(sc, y).value)
  {
    var a := ParseWhole(sc, x).value;
    DefaultFits(sc);
    ParseFits(sc, Default(sc), x, RECURSION_LIMIT);
    ParseContinues(sc, Default(sc), x, RECURSION_LIMIT, y);
    MergeDefaultRight(sc, a);
    ParseMerge(sc, a, Default(sc), a, y, RECURSION_LIMIT);
  }

  /** An empty field of number 15, which these messages do not have; a message that
      overruns swallows some of it. */
  const PROBE: Bytes := [122, 0]

  lemma ProbeIsUnknown(sc: Schema)
    requires |sc.fields| < 15
    ensures ParseWhole(sc, PROBE) == Some(Default(sc).(unknown := [UBytes(15, [])]))
  {
    var d := Default(sc);
    var m := d.(unknown := [UBytes(15, [])]);
    assert PROBE[1..] == [0] && [0][1..] == [];
    assert ReadGroups(PROBE, MAX_VARINT_BYTES) == Number(122, [0]);
    assert ReadTag(PROBE) == Tag(122, [0]);
    assert ReadGroups([0], MAX_VARINT_BYTES) == Number(0, []);
    assert ReadBytes([0]) == GotBytes([], []);
    assert SkipField(122, [0], RECURSION_LIMIT) == GotField(UBytes(15, []), []);
    assert [] + [UBytes(15, [])] == [UBytes(15, [])];
    assert TakeTurn(sc, d, PROBE, RECURSION_LIMIT) == GoOn(m, []);
    assert TakeTurn(sc, m, [], RECURSION_LIMIT) == Stop(Ended(m, [], true));
    assert Parse(sc, m, [], RECURSION_LIMIT) == Ended(m, [], true);
  }

  lemma ZeroIsNoTag()
    ensures ReadTag([0]) == Zero
  {
    assert ReadGroups([0], MAX_VARINT_BYTES) == Number(0, []);
  }

  lemma AfterMessage(k: Kind, slot: Slot, s: Bytes, depth: nat)
    requires (k.KMessage? || k.KRepeated?) && ReadSlot(k, slot, s, depth).GotSlot?
    ensures ReadVarint32(s).Number?
    ensures var n, rest := ReadVarint32(s).value, ReadVarint32(s).rest;
            ReadSlot(k, slot, s, depth).rest == rest[Window(n, rest)..]
  {
  }

  /** Reading the field that overruns leaves the unknown fields of the message alone. */
  lemma OverrunningField(sc: Schema, m: Msg, s: Bytes, depth: nat)
    requires DeclaresTooMuch(sc, ReadTag(s))
    ensures var t := TakeTurn(sc, m, s, depth);
            if t.GoOn? then t.msg.unknown == m.unknown && t.rest == [] else t.result == Failed
    ensures var t := TakeTurn(sc, m, s + PROBE, depth);
            if t.GoOn? then t.msg.unknown == m.unknown && (t.rest == [] || t.rest == [0]) else t.result == Failed
  {
    ReadTagExtends(s, PROBE);
    var tag, body := ReadTag(s).tag, ReadTag(s).rest;
    ReadVarint32Extends(body, PROBE);
    var n, rest := ReadVarint32(body).value, ReadVarint32(body).rest;
    var longer := rest + PROBE;
    var k := sc.fields[tag / 8 - 1];
    if tag / 8 <= |m.slots| {
      var slot := m.slots[tag / 8 - 1];
      if ReadSlot(k, slot, body, depth).GotSlot? {
        AfterMessage(k, slot, body, depth);
      }
      if ReadSlot(k, slot, body + PROBE, depth).GotSlot? {
        AfterMessage(k, slot, body + PROBE, depth);
      }
    }
    assert rest[Window(n, rest)..] == [];
    assert longer[Window(n, longer)..] == (if n == |rest| + 1 then [0] else []);
  }

  lemma {:induction false} OverrunSwallows(sc: Schema, m: Msg, x: Bytes, depth: nat)
    requires Fits(sc, m)
    requires Parse(sc, m, x, depth).Ended? && Parse(sc, m, x, depth).legit && Overruns(sc, x, depth)
    ensures var p := Parse(sc, m, x + PROBE, depth);
            p.Ended? && p.legit ==> |p.msg.unknown| == |Parse(sc, m, x, depth).msg.unknown|
    decreases |x|
  {
    if DeclaresTooMuch(sc, ReadTag(x)) {
      OverrunningField(sc, m, x, depth);
      ZeroIsNoTag();
    } else {
      FieldEnd(sc, m, x, depth);
      TakeTurnExtends(sc, m, x, depth, PROBE);
      TakeTurnFits(sc, m, x, depth);
      var t := TakeTurn(sc, m, x, depth);
      OverrunSwallows(sc, t.msg, t.rest, depth);
    }
  }

  ghost predicate ConcatenationMerges(sc: Schema, x: Bytes, y: Bytes)
    requires |x + y| <= TOTAL_BYTES_LIMIT && ParseWhole(sc, x).Some?
  {
    ParseWhole(sc, y).Some? ==>
      ParseWhole(sc, x + y) == Some(Merge(ParseWhole(sc, x).value, ParseWhole(sc, y).value))
  }

  lemma OverrunBreaksMerge(sc: Schema, x: Bytes)
    requires |x + PROBE| <= TOTAL_BYTES_LIMIT
    requires ParseWhole(sc, x).Some? && Overruns(sc, x, RECURSION_LIMIT) && |sc.fields| < 15
    ensures !ConcatenationMerges(sc, x, PROBE)
  {
    ProbeIsUnknown(sc);
    DefaultFits(sc);
    OverrunSwallows(sc, Default(sc), x, RECURSION_LIMIT);
  }

  /** No message is one byte long. */
  lemma OneByteIsRefused(sc: Schema, b: Byte)
    ensures ParseWhole(sc, [b]) == None
  {
    var d := Default(sc);
    assert [b][1..] == [];
    if 0 < b < 128 {
      assert ReadTag([b]) == Tag(b, []);
      var t := HandleField(sc, d, b, [], RECURSION_LIMIT);
      assert t.Stop? && (t.result.Ended? ==> !t.result.legit);
      assert TakeTurn(sc, d, [b], RECURSION_LIMIT) == t;
    } else {
      assert ReadTag([b]) == Zero;
      assert TakeTurn(sc, d, [b], RECURSION_LIMIT) == Stop(Ended(d, [b], false));
    }
  }

  /** An empty continuation merges, whatever came before it. */
  lemma NothingMerges(sc: Schema, x: Bytes)
    requires |x| <= TOTAL_BYTES_LIMIT && ParseWhole(sc, x).Some?
    ensures ConcatenationMerges(sc, x, [])
  {
    var d := Default(sc);
    DefaultFits(sc);
    ParseFits(sc, d, x, RECURSION_LIMIT);
    MergeDefaultRight(sc, ParseWhole(sc, x).value);
    assert TakeTurn(sc, d, [], RECURSION_LIMIT) == Stop(Ended(d, [], true));
    assert x + [] == x;
  }

  /** A message can be extended by concatenation, as far as the limit allows, exactly when
      it does not overrun or leaves no room for another message. */
  lemma MergeLawExactly(sc: Schema, x: Bytes)
    requires |x| <= TOTAL_BYTES_LIMIT && ParseWhole(sc, x).Some? && |sc.fields| < 15
    ensures (forall y | |x + y| <= TOTAL_BYTES_LIMIT :: ConcatenationMerges(sc, x, y)) <==>
            !Overruns(sc, x, RECURSION_LIMIT) || |x| + 2 > TOTAL_BYTES_LIMIT
  {
    if Overruns(sc, x, RECURSION_LIMIT) && |x| + 2 <= TOTAL_BYTES_LIMIT {
      assert |x + PROBE| <= TOTAL_BYTES_LIMIT;
      OverrunBreaksMerge(sc, x);
    } else {
      forall y | |x + y| <= TOTAL_BYTES_LIMIT
        ensures ConcatenationMerges(sc, x, y)
      {
        if !Overruns(sc, x, RECURSION_LIMIT) {
          MergeLawHolds(sc, x, y);
        } else if y == [] {
          NothingMerges(sc, x);
        } else {
          OneByteIsRefused(sc, y[0]);
          assert y == [y[0]];
        }
      }
    }
  }

  /** A room list cut inside a room is accepted, and then swallows what follows it. */
  lemma TruncatedRoomList()
    ensures ParseWhole(GetRoomListRsp, [18, 2]).Some?
    ensures !ConcatenationMerges(GetRoomListRsp, [18, 2], PROBE)
  {
    var x: Bytes := [18, 2];
    var d, room := Default(GetRoomListRsp), Default(RoomInfo);
    assert x[1..] == [2] && [2][1..] == [];
    assert ReadGroups(x, MAX_VARINT_BYTES) == Number(18, [2]);
    assert ReadTag(x) == Tag(18, [2]);
    assert ReadGroups([2], MAX_VARINT_BYTES) == Number(2, []);
    assert DeclaresTooMuch(GetRoomListRsp, ReadTag(x));
    assert TakeTurn(RoomInfo, room, [], RECURSION_LIMIT - 1) == Stop(Ended(room, [], true));
    assert Parse(RoomInfo, room, [], RECURSION_LIMIT - 1) == Ended(room, [], true);
    assert ReadMessage(RoomInfo, room, [2], RECURSION_LIMIT) == GotMsg(room, []);
    var t := TakeTurn(GetRoomListRsp, d, x, RECURSION_LIMIT);
    assert t.GoOn? && t.rest == [];
    assert TakeTurn(GetRoomListRsp, t.msg, [], RECURSION_LIMIT) == Stop(Ended(t.msg, [], true));
    OverrunBreaksMerge(GetRoomListRsp, x);
  }
}
