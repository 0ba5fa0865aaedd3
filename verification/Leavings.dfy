/** What a parse leaves in the message and unread, whether it succeeds or fails. */
module Leavings {
  import opened Wrappers
  import opened Wire
  import opened Message
  import opened MergeLaw

  /** What the library's own readers leave behind when they fail, of which the header of
      the stream says nothing.  Given the unread bytes: the bytes in a string that had the
      first argument before, the unknown fields that an attempt to skip one has added, and
      what is then still unread after each kind of reader. */
  datatype Debris = Debris(
    text: (Bytes, Bytes) -> Bytes,
    unknown: (nat, Bytes, nat) -> seq<Unknown>,
    afterText: Bytes -> Bytes,
    afterNumber: Bytes -> Bytes,
    afterUnknown: (nat, Bytes, nat) -> Bytes)

  /** The message and the unread bytes of the innermost window. */
  datatype Leaving = Leaving(msg: Msg, rest: Bytes)

  datatype SlotLeaving = SlotLeaving(slot: Slot, rest: Bytes)

  function Text(slot: Slot): Bytes {
    if slot.BytesSlot? then slot.bytes else []
  }

  /** A nested message is read in place, so what was read of it stays. */
  function MessageLeft(d: Debris, sub: Schema, m: Msg, s: Bytes, depth: nat): Leaving
    decreases |s|, 0
  {
    match ReadVarint32(s)
    case NoNumber => Leaving(m, d.afterNumber(s))
    case Number(length, rest) =>
      if depth == 0 then Leaving(m, rest) else Left(d, sub, m, rest[..Window(length, rest)], depth - 1)
  }

  function NestedLeft(l: Leaving): SlotLeaving {
    SlotLeaving(MessageSlot(l.msg), l.rest)
  }

  function ElementLeft(slot: Slot, l: Leaving): SlotLeaving {
    SlotLeaving(ListSlot(Items(slot) + [l.msg]), l.rest)
  }

  /** A string is marked as set before it is read, a number after. */
  function SlotLeft(d: Debris, k: Kind, slot: Slot, s: Bytes, depth: nat): SlotLeaving
    decreases |s|, 1
  {
    match k
    case KBytes => SlotLeaving(BytesSlot(d.text(Text(slot), s)), d.afterText(s))
    case KUint32 => SlotLeaving(slot, d.afterNumber(s))
    case KMessage(sub) => NestedLeft(MessageLeft(d, sub, Target(sub, slot), s, depth))
    case KRepeated(sub) => ElementLeft(slot, MessageLeft(d, sub, Default(sub), s, depth))
  }

  function PutLeft(m: Msg, i: nat, l: SlotLeaving): Leaving
    requires i < |m.slots|
  {
    Leaving(Put(m, i, l.slot), l.rest)
  }

  /** After the turn of the loop that stopped. */
  function TurnLeft(d: Debris, sc: Schema, m: Msg, tag: nat, s: Bytes, depth: nat): Leaving
    decreases |s|, 2
  {
    if Recognised(sc, tag) then
      if tag / 8 <= |m.slots| then
        PutLeft(m, tag / 8 - 1, SlotLeft(d, sc.fields[tag / 8 - 1], m.slots[tag / 8 - 1], s, depth))
      else Leaving(m, s)
    else if tag % 8 == WT_END_GROUP then Leaving(m, s)
    else Leaving(m.(unknown := m.unknown + d.unknown(tag, s, depth)), d.afterUnknown(tag, s, depth))
  }

  function LeftFrom(d: Debris, sc: Schema, m: Msg, tag: nat, s: Bytes, depth: nat): Leaving
    decreases |s|, 5
  {
    match HandleField(sc, m, tag, s, depth)
    case Stop(_) => TurnLeft(d, sc, m, tag, s, depth)
    case GoOn(m', rest) => Left(d, sc, m', rest, depth)
  }

  function Left(d: Debris, sc: Schema, m: Msg, s: Bytes, depth: nat): Leaving
    decreases |s|, 4
  {
    match ReadTag(s)
    case End => Leaving(m, [])
    case Zero => Leaving(m, s)
    case Tag(tag, rest) => LeftFrom(d, sc, m, tag, rest, depth)
  }

  /** The switch ends the loop without a failure only at the end of a group. */
  lemma EndsGroup(sc: Schema, m: Msg, tag: nat, s: Bytes, depth: nat)
    requires HandleField(sc, m, tag, s, depth).Stop? && HandleField(sc, m, tag, s, depth).result.Ended?
    ensures !Recognised(sc, tag) && tag % 8 == WT_END_GROUP
    ensures HandleField(sc, m, tag, s, depth).result == Ended(m, s, false)
  {
  }

  /** After a parse that came to an end it is what was read, whatever the library does. */
  lemma {:induction false} LeftIsParsed(d: Debris, sc: Schema, m: Msg, s: Bytes, depth: nat)
    requires Parse(sc, m, s, depth).Ended?
    ensures var p := Parse(sc, m, s, depth); Left(d, sc, m, s, depth) == Leaving(p.msg, p.rest)
    decreases |s|
  {
    var t := TakeTurn(sc, m, s, depth);
    if t.GoOn? {
      LeftIsParsed(d, sc, t.msg, t.rest, depth);
    } else if ReadTag(s).Tag? {
      EndsGroup(sc, m, ReadTag(s).tag, ReadTag(s).rest, depth);
      assert LeftFrom(d, sc, m, ReadTag(s).tag, ReadTag(s).rest, depth) == Leaving(m, ReadTag(s).rest);
    }
  }

  /** What comes before a failure is kept: the parse had gone on from the message read so far. */
  lemma {:induction false} LeftContinues(d: Debris, sc: Schema, m: Msg, x: Bytes, depth: nat, y: Bytes)
    requires Fits(sc, m)
    requires Parse(sc, m, x, depth).Ended? && Parse(sc, m, x, depth).legit && !Overruns(sc, x, depth)
    ensures Left(d, sc, m, x + y, depth) == Left(d, sc, Parse(sc, m, x, depth).msg, y, depth)
    decreases |x|
  {
    var t := TakeTurn(sc, m, x, depth);
    if t.Stop? {
      LegitStop(sc, m, x, depth);
      assert x + y == y;
    } else {
      FieldEnd(sc, m, x, depth);
      TakeTurnExtends(sc, m, x, depth, y);
      TakeTurnFits(sc, m, x, depth);
      LeftContinues(d, sc, t.msg, t.rest, depth, y);
    }
  }

  // ---------------------------------------------------------------- what stays

  /** Nothing is unset or removed: a string or a number that was set is still set, if
      perhaps to something else, and elements and unknown fields are only appended. */
  ghost predicate Holds(before: Slot, after: Slot)
  {
    match before
    case Unset => true
    case BytesSlot(_) => after.BytesSlot?
    case UintSlot(_) => after.UintSlot?
    case MessageSlot(m) => after.MessageSlot? && HoldsAll(m, after.msg)
    case ListSlot(ms) => after.ListSlot? && ms <= after.msgs
  }

  ghost predicate HoldsAll(before: Msg, after: Msg) {
    && |before.slots| == |after.slots|
    && before.unknown <= after.unknown
    && forall i :: 0 <= i < |before.slots| ==> Holds(before.slots[i], after.slots[i])
  }

  lemma {:induction false} HoldsItself(m: Msg)
    ensures HoldsAll(m, m)
    decreases m
  {
    forall i | 0 <= i < |m.slots|
      ensures Holds(m.slots[i], m.slots[i])
    {
      if m.slots[i].MessageSlot? {
        HoldsItself(m.slots[i].msg);
      }
    }
  }

  lemma {:induction false} HoldsOn(x: Msg, y: Msg, z: Msg)
    requires HoldsAll(x, y) && HoldsAll(y, z)
    ensures HoldsAll(x, z)
    decreases x
  {
    forall i | 0 <= i < |x.slots|
      ensures Holds(x.slots[i], z.slots[i])
    {
      assert Holds(x.slots[i], y.slots[i]) && Holds(y.slots[i], z.slots[i]);
      if x.slots[i].MessageSlot? {
        HoldsOn(x.slots[i].msg, y.slots[i].msg, z.slots[i].msg);
      }
    }
  }

  lemma HoldsPut(m: Msg, i: nat, slot: Slot)
    requires i < |m.slots| && Holds(m.slots[i], slot)
    ensures HoldsAll(m, Put(m, i, slot))
  {
    HoldsItself(m);
  }

  lemma {:induction false} MessageHolds(d: Debris, sub: Schema, m: Msg, s: Bytes, depth: nat)
    requires Fits(sub, m)
    ensures HoldsAll(m, MessageLeft(d, sub, m, s, depth).msg)
    ensures var r := ReadMessage(sub, m, s, depth); r.GotMsg? ==> r.msg == MessageLeft(d, sub, m, s, depth).msg
    decreases |s|, 0
  {
    HoldsItself(m);
    match ReadVarint32(s)
    case NoNumber =>
    case Number(length, rest) =>
      if depth > 0 {
        var window := rest[..Window(length, rest)];
        LeftHolds(d, sub, m, window, depth - 1);
        if Parse(sub, m, window, depth - 1).Ended? {
          LeftIsParsed(d, sub, m, window, depth - 1);
        }
      }
  }

  lemma {:induction false} SlotHolds(d: Debris, k: Kind, slot: Slot, s: Bytes, depth: nat)
    requires FitsSlot(k, slot)
    ensures Holds(slot, SlotLeft(d, k, slot, s, depth).slot)
    ensures var r := ReadSlot(k, slot, s, depth); r.GotSlot? ==> Holds(slot, r.slot)
    decreases |s|, 1
  {
    match k
    case KBytes =>
    case KUint32 =>
    case KMessage(sub) =>
      DefaultFits(sub);
      MessageHolds(d, sub, Target(sub, slot), s, depth);
    case KRepeated(sub) =>
  }

  lemma {:induction false} TurnHolds(d: Debris, sc: Schema, m: Msg, tag: nat, s: Bytes, depth: nat)
    requires Fits(sc, m)
    ensures HoldsAll(m, TurnLeft(d, sc, m, tag, s, depth).msg)
    ensures var t := HandleField(sc, m, tag, s, depth); t.GoOn? ==> HoldsAll(m, t.msg)
    decreases |s|, 2
  {
    HoldsItself(m);
    if Recognised(sc, tag) {
      var i := tag / 8 - 1;
      SlotHolds(d, sc.fields[i], m.slots[i], s, depth);
      HoldsPut(m, i, SlotLeft(d, sc.fields[i], m.slots[i], s, depth).slot);
      var r := ReadSlot(sc.fields[i], m.slots[i], s, depth);
      if r.GotSlot? {
        HoldsPut(m, i, r.slot);
      }
    }
  }

  /** A parse, whether it fails or not, takes nothing away from the message. */
  lemma {:induction false} LeftHolds(d: Debris, sc: Schema, m: Msg, s: Bytes, depth: nat)
    requires Fits(sc, m)
    ensures HoldsAll(m, Left(d, sc, m, s, depth).msg)
    decreases |s|, 4
  {
    HoldsItself(m);
    match ReadTag(s)
    case End =>
    case Zero =>
    case Tag(tag, rest) =>
      TurnHolds(d, sc, m, tag, rest, depth);
      var t := HandleField(sc, m, tag, rest, depth);
      if t.GoOn? {
        TakeTurnFits(sc, m, s, depth);
        LeftHolds(d, sc, t.msg, t.rest, depth);
        HoldsOn(m, t.msg, Left(d, sc, t.msg, t.rest, depth).msg);
      }
  }

  /** A parse of `s` comes to a value of the member with index `i`. */
  predicate Reaches(sc: Schema, s: Bytes, depth: nat, i: nat)
    decreases |s|
  {
    (ReadTag(s).Tag? && Recognised(sc, ReadTag(s).tag) && ReadTag(s).tag / 8 - 1 == i) ||
    var t := TakeTurn(sc, Default(sc), s, depth);
    t.GoOn? && Reaches(sc, t.rest, depth, i)
  }

  lemma TurnKeeps(d: Debris, sc: Schema, m: Msg, tag: nat, s: Bytes, depth: nat, i: nat)
    requires Fits(sc, m) && i < |m.slots| && !(Recognised(sc, tag) && tag / 8 - 1 == i)
    ensures var left := TurnLeft(d, sc, m, tag, s, depth).msg; |left.slots| == |m.slots| && left.slots[i] == m.slots[i]
    ensures var t := HandleField(sc, m, tag, s, depth);
            t.GoOn? ==> |t.msg.slots| == |m.slots| && t.msg.slots[i] == m.slots[i]
  {
    hide SlotLeft, ReadSlot, SkipField;
  }

  /** A member that is not reached keeps its contents, whether the parse fails or not. */
  lemma {:induction false} LeftKeeps(d: Debris, sc: Schema, m: Msg, s: Bytes, depth: nat, i: nat)
    requires Fits(sc, m) && i < |m.slots| && !Reaches(sc, s, depth, i)
    ensures var left := Left(d, sc, m, s, depth).msg; |left.slots| == |m.slots| && left.slots[i] == m.slots[i]
    decreases |s|
  {
    hide HandleField, TurnLeft;
    if ReadTag(s).Tag? {
      TurnKeeps(d, sc, m, ReadTag(s).tag, ReadTag(s).rest, depth, i);
      var t := TakeTurn(sc, m, s, depth);
      if t.GoOn? {
        FieldEnd(sc, m, s, depth);
        TakeTurnFits(sc, m, s, depth);
        LeftKeeps(d, sc, t.msg, t.rest, depth, i);
      }
    }
  }

  /** When the second of two strings cannot be read, nothing that the first one set is
      unset, and the members that the second one does not reach are as the first left them. */
  lemma KeptAfterFailure(d: Debris, sc: Schema, x: Bytes, y: Bytes)
    requires |x + y| <= TOTAL_BYTES_LIMIT && ParseWhole(sc, x).Some? && !Overruns(sc, x, RECURSION_LIMIT)
    ensures var first, left := ParseWhole(sc, x).value, Left(d, sc, Default(sc), x + y, RECURSION_LIMIT);
            && left == Left(d, sc, first, y, RECURSION_LIMIT)
            && HoldsAll(first, left.msg)
            && forall i :: 0 <= i < |first.slots| && !Reaches(sc, y, RECURSION_LIMIT, i) ==>
                 left.msg.slots[i] == first.slots[i]
  {
    DefaultFits(sc);
    ParseFits(sc, Default(sc), x, RECURSION_LIMIT);
    LeftContinues(d, sc, Default(sc), x, RECURSION_LIMIT, y);
    var first := ParseWhole(sc, x).value;
    LeftHolds(d, sc, first, y, RECURSION_LIMIT);
    forall i | 0 <= i < |first.slots| && !Reaches(sc, y, RECURSION_LIMIT, i)
      ensures Left(d, sc, first, y, RECURSION_LIMIT).msg.slots[i] == first.slots[i]
    {
      LeftKeeps(d, sc, first, y, RECURSION_LIMIT, i);
    }
  }
}
