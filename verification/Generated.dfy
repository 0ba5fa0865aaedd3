/** The generated message classes of common/common.pb.{h,cc} as one class over a
    schema: the same members, has-bits, ownership of nested messages, cached sizes
    and parse loop for every message.  Each message has at most one nested field. */
module Generated {
  import opened Wrappers
  import opened Wire
  import opened Message
  import opened Sizes
  import opened MergeLaw
  import opened RoundTrip
  import opened Leavings

  /** A string member points at the shared empty string or at a string of its own. */
  datatype StringField = SharedEmpty | Owned(text: Bytes) {
    function Text(): Bytes {
      if Owned? then text else []
    }
  }

  datatype Cell = StrCell(str: StringField) | NumCell(num: nat) | NestedCell

  predicate IsNested(k: Kind) {
    k.KMessage? || k.KRepeated?
  }

  /** The index of the first nested field, or the number of fields. */
  function NestedIndex(ks: seq<Kind>): (i: nat)
    ensures i <= |ks| && (i < |ks| ==> IsNested(ks[i]))
  {
    if ks == [] || IsNested(ks[0]) then 0 else 1 + NestedIndex(ks[1..])
  }

  ghost predicate AtMostOneNested(sc: Schema) {
    forall i :: 0 <= i < |sc.fields| && IsNested(sc.fields[i]) ==> i == NestedIndex(sc.fields)
  }

  /** The shape of the generated messages: nested fields do not share a message. */
  ghost predicate Supported(sc: Schema) {
    && AtMostOneNested(sc)
    && (NestedIndex(sc.fields) < |sc.fields| ==> Supported(sc.fields[NestedIndex(sc.fields)].sub))
  }

  function EmptyCell(k: Kind): Cell {
    match k
    case KBytes => StrCell(SharedEmpty)
    case KUint32 => NumCell(0)
    case KMessage(_) => NestedCell
    case KRepeated(_) => NestedCell
  }

  /** A member whose has-bit is unset holds its default; a set string is owned. */
  ghost predicate CellFits(k: Kind, cell: Cell, has: bool) {
    match k
    case KBytes => cell.StrCell? && (if has then cell.str.Owned? else cell.str.Text() == [])
    case KUint32 => cell.NumCell? && cell.num < TWO_32 && (!has ==> cell.num == 0)
    case KMessage(_) => cell.NestedCell?
    case KRepeated(_) => cell.NestedCell? && !has
  }

  function MergedIf(present: bool, x: Slot, y: Slot): Slot {
    if present then MergeSlot(x, y) else x
  }

  /** Merging the repeated members first and those with a has-bit afterwards is merging all. */
  lemma MergedInTwo(ks: seq<Kind>, has: set<nat>, mine: Msg, theirs: Msg, between: seq<Slot>, now: Msg)
    requires |ks| == |mine.slots| == |theirs.slots| == |between| == |now.slots| && now.unknown == mine.unknown
    requires forall i <- has :: i < |ks| && !ks[i].KRepeated?
    requires forall i :: 0 <= i < |ks| && i !in has && !ks[i].KRepeated? ==>
               MergeSlot(mine.slots[i], theirs.slots[i]) == mine.slots[i]
    requires forall i :: 0 <= i < |ks| ==> between[i] == MergedIf(ks[i].KRepeated?, mine.slots[i], theirs.slots[i])
    requires if has == {} then now.slots == between
             else forall i :: 0 <= i < |ks| ==> now.slots[i] == MergedIf(i in has, between[i], theirs.slots[i])
    ensures now.(unknown := mine.unknown + theirs.unknown) == Merge(mine, theirs)
  {
    hide MergeSlot;
    assert now.slots == Merge(mine, theirs).slots;
  }

  lemma PutLonger(m: Msg, i: nat, xs: seq<Msg>, ys: seq<Msg>, j: nat)
    requires i < |m.slots| && j < |ys|
    ensures var before := Put(m, i, ListSlot(xs + ys[..j]));
            Put(before, i, ListSlot(Items(before.slots[i]) + [ys[j]])) == Put(m, i, ListSlot(xs + ys[..j + 1]))
  {
    assert (xs + ys[..j]) + [ys[j]] == xs + ys[..j + 1];
  }

  lemma ElementSizesStep(sub: Schema, ms: seq<Msg>, i: nat)
    requires i < |ms|
    ensures ElementSizes(sub, ms[i..]) == DelimitedSize(Size(sub, ms[i])) + ElementSizes(sub, ms[i + 1..])
  {
    assert ms[i..][1..] == ms[i + 1..];
  }

  /** The member holds nothing but its default. */
  predicate Empty(cell: Cell) {
    match cell
    case StrCell(str) => str.Text() == []
    case NumCell(num) => num == 0
    case NestedCell => true
  }

  lemma EmptyFits(k: Kind, cell: Cell, has: bool)
    requires CellFits(k, cell, has)
    ensures !has ==> Empty(cell)
    ensures Empty(cell) ==> CellFits(k, cell, false)
  {
  }

  /** The buffer with `b` written from `start` on. */
  function Patch(buffer: Bytes, start: nat, b: Bytes): (patched: Bytes)
    requires start + |b| <= |buffer|
    ensures |patched| == |buffer|
  {
    buffer[..start] + b + buffer[start + |b|..]
  }

  lemma PatchAll(buffer: Bytes, b: Bytes)
    requires |buffer| == |b|
    ensures Patch(buffer, 0, b) == b
  {
  }

  lemma PatchNothing(buffer: Bytes, start: nat)
    requires start <= |buffer|
    ensures Patch(buffer, start, []) == buffer
  {
  }

  lemma PatchTwice(buffer: Bytes, start: nat, a: Bytes, b: Bytes)
    requires start + |a| + |b| <= |buffer|
    ensures Patch(Patch(buffer, start, a), start + |a|, b) == Patch(buffer, start, a + b)
  {
  }

  method WriteToArray(b: Bytes, target: array<Byte>, start: nat) returns (end: nat)
    requires start + |b| <= target.Length
    modifies target
    ensures end == start + |b| && target[..] == Patch(old(target[..]), start, b)
  {
    var i := 0;
    while i < |b|
      invariant 0 <= i <= |b|
      invariant forall j :: 0 <= j < target.Length ==>
                  target[j] == if start <= j < start + i then b[j - start] else old(target[j])
    {
      target[start + i] := b[i];
      i := i + 1;
    }
    end := start + |b|;
    assert target[..] == Patch(old(target[..]), start, b);
  }

  /** The serialization from field index `i` on. */
  ghost function FieldsFrom(sc: Schema, m: Msg, i: nat): Bytes
    requires |sc.fields| == |m.slots| && i <= |sc.fields|
  {
    SerializeSlots(sc.fields[i..], i + 1, m.slots[i..]) + SerializeUnknowns(m.unknown)
  }

  lemma FieldsFromEnds(sc: Schema, m: Msg)
    requires |sc.fields| == |m.slots|
    ensures FieldsFrom(sc, m, 0) == Serialize(sc, m)
    ensures FieldsFrom(sc, m, |sc.fields|) == SerializeUnknowns(m.unknown)
  {
    assert sc.fields[0..] == sc.fields && m.slots[0..] == m.slots;
  }

  lemma FieldsFromStep(sc: Schema, m: Msg, i: nat)
    requires |sc.fields| == |m.slots| && i < |sc.fields|
    ensures FieldsFrom(sc, m, i) == SerializeSlot(sc.fields[i], i + 1, m.slots[i]) + FieldsFrom(sc, m, i + 1)
  {
  }

  lemma OptionalSizesEnds(ks: seq<Kind>, slots: seq<Slot>)
    requires |ks| == |slots|
    ensures OptionalSizes(ks[0..], slots[0..]) == OptionalSizes(ks, slots)
    ensures OptionalSizes(ks[|ks|..], slots[|ks|..]) == 0
  {
    assert ks[0..] == ks && slots[0..] == slots;
  }

  lemma OptionalSizesStep(ks: seq<Kind>, slots: seq<Slot>, i: nat)
    requires |ks| == |slots| && i < |ks|
    ensures OptionalSizes(ks[i..], slots[i..])
              == OptionalSize(ks[i], slots[i]) + OptionalSizes(ks[i + 1..], slots[i + 1..])
  {
    assert ks[i..][1..] == ks[i + 1..] && slots[i..][1..] == slots[i + 1..];
  }

  /** Writing `piece` leaves `rest` of `left` to be written. */
  lemma Written(out: Bytes, piece: Bytes, rest: Bytes, left: Bytes)
    requires left == piece + rest
    ensures (out + piece) + rest == out + left
  {
  }

  lemma SerializeListStep(tag: Bytes, sub: Schema, ms: seq<Msg>, j: nat)
    requires j < |ms|
    ensures SerializeList(tag, sub, ms[j..])
         == (tag + Delimited(Serialize(sub, ms[j]))) + SerializeList(tag, sub, ms[j + 1..])
  {
    assert ms[j..][1..] == ms[j + 1..];
  }

  /** The bytes of `all` up to `left` have been written to the buffer from `start` on. */
  ghost predicate WrittenUpTo(left: Bytes, all: Bytes, before: Bytes, start: nat, now: Bytes, end: nat) {
    && start + |all| <= |before|
    && |left| <= |all| && all[|all| - |left|..] == left
    && end == start + |all| - |left|
    && now == Patch(before, start, all[..|all| - |left|])
  }

  /** Writing the next piece advances. */
  lemma WrittenNext(left: Bytes, all: Bytes, before: Bytes, start: nat, now: Bytes, end: nat, piece: Bytes, rest: Bytes)
    requires WrittenUpTo(left, all, before, start, now, end) && left == piece + rest
    ensures end + |piece| <= |now|
    ensures WrittenUpTo(rest, all, before, start, Patch(now, end, piece), end + |piece|)
  {
  }

  lemma WrittenNothing(all: Bytes, before: Bytes, start: nat)
    requires start + |all| <= |before|
    ensures WrittenUpTo(all, all, before, start, before, start)
  {
    assert all[..0] == [];
    PatchNothing(before, start);
  }

  lemma WrittenAll(all: Bytes, before: Bytes, start: nat, now: Bytes, end: nat)
    requires WrittenUpTo([], all, before, start, now, end)
    ensures end == start + |all| && now == Patch(before, start, all)
  {
    assert all[..|all|] == all;
  }

  /** The unread bytes of the current window, the nesting still allowed, and whether
      the last tag read was the regular end of the window. */
  class CodedInput {
    const debris: Debris
    var rest: Bytes
    var depth: nat
    var legit: bool

    constructor (data: Bytes, debris: Debris)
      ensures rest == data && depth == RECURSION_LIMIT && !legit && this.debris == debris
    {
      this.debris := debris;
      rest := data;
      depth := RECURSION_LIMIT;
      legit := false;
    }

    method NextTag() returns (tag: nat)
      modifies `rest, `legit
      ensures TagIs(old(rest), old(legit), tag)
    {
      match ReadTag(rest)
      case End =>
        tag := 0;
        legit := true;
      case Zero => tag := 0;
      case Tag(t, r) =>
        tag := t;
        rest := r;
    }

    /** What reading a tag from `before` has done to the input. */
    ghost predicate TagIs(before: Bytes, legitBefore: bool, tag: nat)
      reads `rest, `legit
    {
      match ReadTag(before)
      case End => tag == 0 && rest == before && legit
      case Zero => tag == 0 && rest == before && legit == legitBefore
      case Tag(t, r) => tag == t && rest == r && legit == legitBefore
    }

    /** Advances past a one-byte tag if it is the next byte; it may also fail to look. */
    method ExpectTag(expected: nat) returns (found: bool)
      modifies `rest
      ensures found ==> old(rest) != [] && old(rest)[0] == expected && rest == old(rest)[1..]
      ensures !found ==> rest == old(rest)
    {
      var looks: bool := *;
      found := looks && rest != [] && rest[0] == expected;
      if found {
        rest := rest[1..];
      }
    }

    /** May miss the end, but never reports an end that is not there. */
    method ExpectAtEnd() returns (found: bool)
      modifies `legit
      ensures found ==> rest == [] && legit
      ensures !found ==> legit == old(legit)
    {
      var looks: bool := *;
      found := looks && rest == [];
      if found {
        legit := true;
      }
    }

    method PushLimit(length: nat) returns (beyond: Bytes)
      modifies `rest
      ensures rest == old(rest)[..Window(length, old(rest))]
      ensures beyond == old(rest)[Window(length, old(rest))..]
    {
      var w := Window(length, rest);
      beyond := rest[w..];
      rest := rest[..w];
    }

    method PopLimit(beyond: Bytes)
      modifies `rest, `legit
      ensures rest == old(rest) + beyond && !legit
    {
      rest := rest + beyond;
      legit := false;
    }
  }

  lemma OneByteTagIsRead(s: Bytes)
    requires s != [] && 0 < s[0] < 128
    ensures ReadTag(s) == Tag(s[0], s[1..])
  {
  }

  /** What the loop makes of a turn. */
  ghost function Resume(sc: Schema, t: Turn, depth: nat): Parsed {
    match t
    case Stop(r) => r
    case GoOn(m, rest) => Parse(sc, m, rest, depth)
  }

  /** What the loop makes of the tag it has read, 0 standing for no tag. */
  ghost function Onwards(sc: Schema, m: Msg, tag: nat, rest: Bytes, legit: bool, depth: nat): Parsed {
    if tag == 0 then Ended(m, rest, legit) else Resume(sc, HandleField(sc, m, tag, rest, depth), depth)
  }

  ghost function LeftOnwards(d: Debris, sc: Schema, m: Msg, tag: nat, rest: Bytes, depth: nat): Leaving {
    if tag == 0 then Leaving(m, rest) else LeftFrom(d, sc, m, tag, rest, depth)
  }

  /** Reading a tag and going on from there is what `Parse` does. */
  lemma ParseByTag(input: CodedInput, before: Bytes, sc: Schema, m: Msg, tag: nat, depth: nat)
    requires input.TagIs(before, false, tag)
    ensures Parse(sc, m, before, depth) == Onwards(sc, m, tag, input.rest, input.legit, depth)
    ensures Left(input.debris, sc, m, before, depth) == LeftOnwards(input.debris, sc, m, tag, input.rest, depth)
  {
  }

  /** What a turn of the loop means for the whole of it. */
  lemma ParseByTurn(d: Debris, sc: Schema, m: Msg, tag: nat, rest: Bytes, depth: nat)
    requires tag != 0
    ensures var t := HandleField(sc, m, tag, rest, depth);
            if t.GoOn? then
              && Onwards(sc, m, tag, rest, false, depth) == Parse(sc, t.msg, t.rest, depth)
              && LeftOnwards(d, sc, m, tag, rest, depth) == Left(d, sc, t.msg, t.rest, depth)
            else
              && Onwards(sc, m, tag, rest, false, depth) == t.result
              && LeftOnwards(d, sc, m, tag, rest, depth) == TurnLeft(d, sc, m, tag, rest, depth)
    ensures !Recognised(sc, tag) && tag % 8 == WT_END_GROUP ==>
              && Onwards(sc, m, tag, rest, false, depth) == Ended(m, rest, false)
              && LeftOnwards(d, sc, m, tag, rest, depth) == Leaving(m, rest)
  {
  }

  lemma NoMore(d: Debris, sc: Schema, m: Msg, rest: Bytes, legit: bool, depth: nat)
    ensures Onwards(sc, m, 0, rest, legit, depth) == Ended(m, rest, legit)
    ensures LeftOnwards(d, sc, m, 0, rest, depth) == Leaving(m, rest)
  {
  }

  class GeneratedMessage {
    const schema: Schema
    var has: set<nat>                   // the bits set in _has_bits_[0], by field index
    var cells: seq<Cell>
    var kids: seq<GeneratedMessage>     // the optional nested message, or the repeated ones
    var unknown: seq<Unknown>
    var cachedSize: Length
    ghost var Repr: set<GeneratedMessage>

    ghost predicate Valid()
      reads this`has, this`cells, this`kids, this`unknown, this`Repr
      reads (Repr - {this})`has, (Repr - {this})`cells, (Repr - {this})`kids
      reads (Repr - {this})`unknown, (Repr - {this})`Repr
      ensures Valid() ==> this in Repr && KidsValid()
      decreases Repr, 1
    {
      ValidCells() && KidsValid() && ValidOptional()
    }

    ghost predicate KidsValid()
      reads this`kids, this`Repr
      reads (Repr - {this})`has, (Repr - {this})`cells, (Repr - {this})`kids
      reads (Repr - {this})`unknown, (Repr - {this})`Repr
      ensures KidsValid() ==> KidsPlaced() && forall j :: 0 <= j < |kids| ==> kids[j].Valid()
      decreases Repr, 0
    {
      && KidsPlaced()
      && (forall j :: 0 <= j < |kids| ==> kids[j].Valid())
    }

    ghost predicate ValidCells()
      reads this`has, this`cells
    {
      && |cells| == |schema.fields|
      && (forall i <- has :: i < |schema.fields|)
      && (forall i :: 0 <= i < |cells| ==> CellFits(schema.fields[i], cells[i], i in has))
    }

    /** The nested messages are owned: of the field's type, and apart from one another. */
    ghost predicate KidsPlaced()
      reads this`kids, this`Repr, (Repr - {this})`Repr
    {
      && this in Repr
      && Supported(schema)
      && (forall j :: 0 <= j < |kids| ==> kids[j] in Repr - {this} && kids[j].Repr <= Repr - {this})
      && (forall i, j :: 0 <= i < j < |kids| ==> kids[i].Repr !! kids[j].Repr)
      && (kids != [] ==> NestedIndex(schema.fields) < |schema.fields|)
      && (forall j :: 0 <= j < |kids| ==> kids[j].schema == schema.fields[NestedIndex(schema.fields)].sub)
    }

    /** An optional nested message that is set exists; one that is not set is absent or cleared. */
    ghost predicate ValidOptional()
      reads this`has, this`kids, kids`has, kids`unknown, kids`kids
    {
      var i := NestedIndex(schema.fields);
      i < |schema.fields| && schema.fields[i].KMessage? ==>
        && |kids| <= 1
        && (i in has ==> |kids| == 1)
        && (i !in has && |kids| == 1 ==> kids[0].IsCleared())
    }

    ghost predicate IsCleared()
      reads this`has, this`unknown, this`kids
    {
      && has == {}
      && unknown == []
      && (NestedIndex(schema.fields) < |schema.fields| && schema.fields[NestedIndex(schema.fields)].KRepeated? ==>
          kids == [])
    }

    /** The observable message. */
    ghost function Abs(): (m: Msg)
      reads this`has, this`cells, this`kids, this`unknown, this`Repr
      reads (Repr - {this})`has, (Repr - {this})`cells, (Repr - {this})`kids
      reads (Repr - {this})`unknown, (Repr - {this})`Repr
      requires Valid()
      ensures |m.slots| == |schema.fields| && m.unknown == unknown
      decreases Repr, 3, 2
    {
      Msg(SlotsUpTo(|schema.fields|), unknown)
    }

    ghost function SlotsUpTo(n: nat): (slots: seq<Slot>)
      reads this`has, this`cells, this`kids, this`unknown, this`Repr
      reads (Repr - {this})`has, (Repr - {this})`cells, (Repr - {this})`kids
      reads (Repr - {this})`unknown, (Repr - {this})`Repr
      requires Valid() && n <= |schema.fields|
      ensures |slots| == n && forall i :: 0 <= i < n ==> slots[i] == SlotAt(i)
      decreases Repr, 3, 1, n
    {
      if n == 0 then [] else SlotsUpTo(n - 1) + [SlotAt(n - 1)]
    }

    ghost function SlotAt(i: nat): Slot
      reads this`has, this`cells, this`kids, this`unknown, this`Repr
      reads (Repr - {this})`has, (Repr - {this})`cells, (Repr - {this})`kids
      reads (Repr - {this})`unknown, (Repr - {this})`Repr
      requires Valid() && i < |schema.fields|
      decreases Repr, 3, 0
    {
      match schema.fields[i]
      case KBytes => if i in has then BytesSlot(cells[i].str.text) else Unset
      case KUint32 => if i in has then UintSlot(cells[i].num) else Unset
      case KMessage(_) => if i in has then MessageSlot(kids[0].Abs()) else Unset
      case KRepeated(_) => ListSlot(KidMsgs(|kids|))
    }

    ghost function KidMsgs(n: nat): (ms: seq<Msg>)
      reads this`kids, this`Repr
      reads (Repr - {this})`has, (Repr - {this})`cells, (Repr - {this})`kids
      reads (Repr - {this})`unknown, (Repr - {this})`Repr
      requires KidsValid() && n <= |kids|
      ensures |ms| == n && forall j :: 0 <= j < n ==> ms[j] == kids[j].Abs()
      decreases Repr, 2, n
    {
      if n == 0 then [] else KidMsgs(n - 1) + [kids[n - 1].Abs()]
    }

    lemma {:induction false} AbsFits()
      requires Valid()
      ensures Fits(schema, Abs())
      decreases Repr
    {
      forall j | 0 <= j < |kids|
        ensures Fits(kids[j].schema, kids[j].Abs())
      {
        kids[j].AbsFits();
      }
      forall i | 0 <= i < |schema.fields|
        ensures FitsSlot(schema.fields[i], Abs().slots[i])
      {
        assert CellFits(schema.fields[i], cells[i], i in has);
      }
    }

    lemma ClearedIsDefault()
      requires Valid() && IsCleared()
      ensures Abs() == Default(schema)
    {
      assert Abs().slots == Default(schema).slots;
    }

    /** A member is as it was if its cell and its has-bit are, or the nested messages. */
    twostate lemma SameSlot(i: nat)
      requires old(Valid()) && Valid() && i < |schema.fields| && i < |cells| && i < old(|cells|)
      requires cells[i] == old(cells[i]) && (i in has <==> i in old(has))
      requires IsNested(schema.fields[i]) ==> kids == old(kids) && KidMsgs(|kids|) == old(KidMsgs(|kids|))
      ensures SlotAt(i) == old(SlotAt(i))
    {
      hide KidsPlaced, ValidCells, ValidOptional, CellFits;
      SetIsThere(i);
      if schema.fields[i].KMessage? && i in has {
        assert KidMsgs(|kids|)[0] == old(KidMsgs(|kids|))[0];
      }
    }

    /** Only member `i` differs from the earlier state. */
    twostate lemma OneSlotChanged(i: nat)
      requires old(Valid()) && Valid() && i < |schema.fields|
      requires forall j :: 0 <= j < |schema.fields| && j != i ==>
                 cells[j] == old(cells[j]) && (j in has <==> j in old(has))
      requires unknown == old(unknown)
      requires IsNested(schema.fields[i]) || (kids == old(kids) && KidMsgs(|kids|) == old(KidMsgs(|kids|)))
      ensures Abs() == Put(old(Abs()), i, SlotAt(i))
    {
      hide KidsValid, ValidOptional, CellFits, SlotAt, NestedIndex;
      SetIsThere(i);
      forall j | 0 <= j < |schema.fields| && j != i
        ensures SlotAt(j) == old(SlotAt(j))
      {
        SetIsThere(j);
        SameSlot(j);
      }
      assert Abs().slots == Put(old(Abs()), i, SlotAt(i)).slots;
    }

    /** Nothing below this message and none of its nested messages was touched. */
    twostate predicate OnlyCellsChanged()
      reads this`kids, this`Repr, Repr - {this}
    {
      unchanged(this`kids, this`Repr) && unchanged(Repr - {this})
    }

    twostate lemma StillValid()
      requires old(Valid()) && OnlyCellsChanged() && ValidCells()
      requires forall i :: 0 <= i < |schema.fields| && IsNested(schema.fields[i]) ==> (i in has <==> i in old(has))
      ensures Valid() && KidMsgs(|kids|) == old(KidMsgs(|kids|))
    {
      assert KidsPlaced();
      forall j | 0 <= j < |kids|
        ensures kids[j].Valid()
      {
        assert old(kids[j].Valid());
      }
      assert ValidOptional();
    }

    /** Scalar member `i` was given a new value. */
    twostate lemma ScalarChanged(i: nat)
      requires old(Valid()) && OnlyCellsChanged() && ValidCells() && unchanged(this`unknown)
      requires i < |schema.fields| && !IsNested(schema.fields[i])
      requires forall j :: 0 <= j < |schema.fields| && j != i ==>
                 cells[j] == old(cells[j]) && (j in has <==> j in old(has))
      ensures Valid() && Abs() == Put(old(Abs()), i, SlotAt(i))
    {
      StillValid();
      OneSlotChanged(i);
    }

    /** The nested field was given new contents. */
    twostate lemma NestedChanged(i: nat)
      requires old(Valid()) && ValidCells() && KidsValid() && ValidOptional()
      requires unchanged(this`cells, this`unknown)
      requires i < |schema.fields| && IsNested(schema.fields[i])
      requires forall j :: 0 <= j < |schema.fields| && j != i ==> (j in has <==> j in old(has))
      ensures Valid() && Abs() == Put(old(Abs()), i, SlotAt(i))
    {
      OneSlotChanged(i);
    }

    /** All nested messages but the last are in `keep`, where nothing was touched. */
    twostate predicate OnlyLastKid(keep: set<GeneratedMessage>)
      reads this`kids, keep
      requires old(Valid())
    {
      && 0 < |kids| && old(|kids|) <= |kids| <= old(|kids|) + 1
      && kids[..|kids| - 1] == old(kids)[..|kids| - 1]
      && (forall j :: 0 <= j < |kids| - 1 ==> old(kids[j].Repr) <= keep)
      && unchanged(keep)
    }

    twostate lemma KidsBefore(keep: set<GeneratedMessage>)
      requires old(Valid()) && OnlyLastKid(keep)
      ensures forall j :: 0 <= j < |kids| - 1 ==>
                kids[j] == old(kids)[j] && kids[j].Repr == old(kids[j].Repr) && kids[j].Valid()
                    && kids[j].Abs() == old(kids[j].Abs())
    {
      forall j | 0 <= j < |kids| - 1
        ensures kids[j] == old(kids)[j] && kids[j].Repr == old(kids[j].Repr) && kids[j].Valid()
        ensures kids[j].Abs() == old(kids[j].Abs())
      {
        assert kids[j] == kids[..|kids| - 1][j] == old(kids)[j] && old(kids[j].Valid());
        assert kids[j] in keep;
      }
    }

    /** The last nested message was appended or modified. */
    twostate lemma LastKid(keep: set<GeneratedMessage>)
      requires old(Valid()) && OnlyLastKid(keep)
      requires var kid := kids[|kids| - 1];
               && Repr == old(Repr) + kid.Repr && this !in kid.Repr && kid.Valid() && kid.Repr !! keep
               && NestedIndex(schema.fields) < |schema.fields|
               && kid.schema == schema.fields[NestedIndex(schema.fields)].sub
      ensures KidsValid()
    {
      KidsBefore(keep);
      forall j | 0 <= j < |kids|
        ensures kids[j] in Repr - {this} && kids[j].Repr <= Repr - {this}
        ensures j < |kids| - 1 ==> kids[j] == old(kids)[j] && kids[j].Repr <= keep
      {
      }
    }

    twostate lemma LastKidMsgs(keep: set<GeneratedMessage>)
      requires old(Valid()) && Valid() && OnlyLastKid(keep)
      ensures |kids| == old(|kids|) + 1 ==> KidMsgs(|kids|) == old(KidMsgs(|kids|)) + [kids[|kids| - 1].Abs()]
      ensures |kids| == old(|kids|) ==> KidMsgs(|kids|) == old(KidMsgs(|kids|))[|kids| - 1 := kids[|kids| - 1].Abs()]
    {
      KidsBefore(keep);
    }

    /** The repeated field gained an element, or its last element was modified. */
    twostate lemma LastElement(keep: set<GeneratedMessage>)
      requires old(Valid()) && OnlyLastKid(keep) && unchanged(this`cells, this`has, this`unknown)
      requires var kid := kids[|kids| - 1];
               && Repr == old(Repr) + kid.Repr && this !in kid.Repr && kid.Valid() && kid.Repr !! keep
               && NestedIndex(schema.fields) < |schema.fields|
               && kid.schema == schema.fields[NestedIndex(schema.fields)].sub
      requires schema.fields[NestedIndex(schema.fields)].KRepeated?
      ensures Valid()
      ensures Abs() == Put(old(Abs()), NestedIndex(schema.fields), ListSlot(KidMsgs(|kids|)))
    {
      LastKid(keep);
      assert ValidOptional();
      NestedChanged(NestedIndex(schema.fields));
    }

    twostate lemma AppendedElement(keep: set<GeneratedMessage>)
      requires old(Valid()) && OnlyLastKid(keep) && unchanged(this`cells, this`has, this`unknown)
      requires var kid := kids[|kids| - 1];
               && Repr == old(Repr) + kid.Repr && this !in kid.Repr && kid.Valid() && kid.Repr !! keep
               && NestedIndex(schema.fields) < |schema.fields|
               && kid.schema == schema.fields[NestedIndex(schema.fields)].sub
      requires schema.fields[NestedIndex(schema.fields)].KRepeated?
      requires |kids| == old(|kids|) + 1
      ensures Valid()
      ensures Abs() == Put(old(Abs()), NestedIndex(schema.fields),
                ListSlot(Items(old(Abs()).slots[NestedIndex(schema.fields)]) + [kids[|kids| - 1].Abs()]))
    {
      hide OnlyLastKid, ValidCells, ValidOptional, KidsPlaced, KidMsgs, Put;
      LastElement(keep);
      LastKidMsgs(keep);
    }

    /** The optional nested message is now set. */
    twostate lemma SoleKid()
      requires old(Valid()) && unchanged(this`cells, this`unknown)
      requires NestedIndex(schema.fields) < |schema.fields| && schema.fields[NestedIndex(schema.fields)].KMessage?
      requires |kids| == 1 && has == old(has) + {NestedIndex(schema.fields)}
      requires Repr == old(Repr) + kids[0].Repr && this !in kids[0].Repr && kids[0].Valid()
      requires kids[0].schema == schema.fields[NestedIndex(schema.fields)].sub
      ensures Valid() && Abs() == Put(old(Abs()), NestedIndex(schema.fields), MessageSlot(kids[0].Abs()))
    {
      hide IsCleared, KidMsgs;
      assert KidsPlaced();
      NestedChanged(NestedIndex(schema.fields));
    }

    // ---------------------------------------------------------------- has-bit accessors

    constructor (sc: Schema)
      requires Supported(sc)
      ensures Valid() && fresh(Repr) && schema == sc && IsCleared() && Abs() == Default(sc)
    {
      schema := sc;
      has := {};
      cells := seq(|sc.fields|, i requires 0 <= i < |sc.fields| => EmptyCell(sc.fields[i]));
      kids := [];
      unknown := [];
      cachedSize := 0;
      Repr := {this};
      new;
      assert ValidCells() && KidsValid() && ValidOptional();
      ClearedIsDefault();
    }

    method SetBytes(i: nat, v: Bytes)
      requires Valid() && i < |schema.fields| && schema.fields[i].KBytes?
      modifies this`has, this`cells
      ensures Valid() && Abs() == Put(old(Abs()), i, BytesSlot(v))
    {
      has := has + {i};
      cells := cells[i := StrCell(Owned(v))];
      ScalarChanged(i);
    }

    method SetUint(i: nat, v: nat)
      requires Valid() && i < |schema.fields| && schema.fields[i].KUint32? && v < TWO_32
      modifies this`has, this`cells
      ensures Valid() && Abs() == Put(old(Abs()), i, UintSlot(v))
    {
      has := has + {i};
      cells := cells[i := NumCell(v)];
      ScalarChanged(i);
    }

    /** Marks the string as set; it keeps the bytes it had. */
    method MutableBytes(i: nat)
      requires Valid() && i < |schema.fields| && schema.fields[i].KBytes?
      modifies this`has, this`cells
      ensures Valid()
      ensures var before := old(SlotAt(i));
              Abs() == Put(old(Abs()), i, if before.Unset? then BytesSlot([]) else before)
    {
      has := has + {i};
      if cells[i].str.SharedEmpty? {
        cells := cells[i := StrCell(Owned([]))];
      }
      assert CellFits(schema.fields[i], old(cells[i]), i in old(has));
      ScalarChanged(i);
    }

    method ClearScalar(i: nat)
      requires Valid() && i < |schema.fields| && !IsNested(schema.fields[i])
      modifies this`has, this`cells
      ensures Valid() && Abs() == Put(old(Abs()), i, Unset)
    {
      assert CellFits(schema.fields[i], cells[i], i in has);
      if schema.fields[i].KUint32? {
        cells := cells[i := NumCell(0)];
      } else if cells[i].str.Owned? {
        cells := cells[i := StrCell(Owned([]))];
      }
      has := has - {i};
      ScalarChanged(i);
    }

    /** Hands the string over; None stands for a null pointer. */
    method ReleaseBytes(i: nat) returns (r: Option<Bytes>)
      requires Valid() && i < |schema.fields| && schema.fields[i].KBytes?
      modifies this`has, this`cells
      ensures Valid() && Abs() == Put(old(Abs()), i, Unset)
      ensures old(SlotAt(i)).BytesSlot? ==> r == Some(old(SlotAt(i)).bytes)
      ensures old(SlotAt(i)).Unset? ==> r == None || r == Some([])
    {
      assert CellFits(schema.fields[i], cells[i], i in has);
      has := has - {i};
      if cells[i].str.SharedEmpty? {
        r := None;
      } else {
        r := Some(cells[i].str.text);
        cells := cells[i := StrCell(SharedEmpty)];
      }
      ScalarChanged(i);
    }

    method SetAllocatedBytes(i: nat, v: Option<Bytes>)
      requires Valid() && i < |schema.fields| && schema.fields[i].KBytes?
      modifies this`has, this`cells
      ensures Valid() && Abs() == Put(old(Abs()), i, if v.Some? then BytesSlot(v.value) else Unset)
    {
      if v.Some? {
        has := has + {i};
        cells := cells[i := StrCell(Owned(v.value))];
      } else {
        has := has - {i};
        cells := cells[i := StrCell(SharedEmpty)];
      }
      ScalarChanged(i);
    }

    method AddUnknowns(us: seq<Unknown>)
      requires Valid()
      modifies this`unknown
      ensures Valid() && Abs() == old(Abs()).(unknown := old(unknown) + us)
    {
      unknown := unknown + us;
      StillValid();
      SlotsUnchanged();
    }

    /** The members are as they were, whatever happened to the unknown fields. */
    twostate lemma SlotsUnchanged()
      requires old(Valid()) && Valid()
      requires cells == old(cells) && has == old(has) && kids == old(kids)
      requires KidMsgs(|kids|) == old(KidMsgs(|kids|))
      ensures Abs().slots == old(Abs()).slots
    {
      hide Valid, SlotAt, NestedIndex;
      forall j | 0 <= j < |schema.fields|
        ensures SlotAt(j) == old(SlotAt(j))
      {
        SetIsThere(j);
        SameSlot(j);
      }
    }

    // ---------------------------------------------------------------- nested messages

    /** The field index of the nested field. */
    function At(): (i: nat)
    {
      NestedIndex(schema.fields)
    }

    /** The nested message is there if it is set, and cleared if it is not. */
    lemma KidIs()
      requires Valid() && At() < |schema.fields| && schema.fields[At()].KMessage?
      ensures Supported(schema.fields[At()].sub) && |kids| <= 1
      ensures kids != [] ==> kids[0].Repr <= Repr - {this} && kids[0].schema == schema.fields[At()].sub
      ensures At() !in has && kids != [] ==> kids[0].IsCleared()
      ensures At() in has ==> kids != []
      ensures Target(schema.fields[At()].sub, Abs().slots[At()])
           == if At() in has then kids[0].Abs() else Default(schema.fields[At()].sub)
    {
    }

    method MutableKid() returns (kid: GeneratedMessage)
      requires Valid() && At() < |schema.fields| && schema.fields[At()].KMessage?
      modifies this`has, this`kids, this`Repr
      ensures Valid() && fresh(Repr - old(Repr)) && kids == [kid] && has == old(has) + {At()}
      ensures Repr == old(Repr) + kid.Repr && unchanged(old(Repr) - {this})
      ensures Abs() == Put(old(Abs()), At(), MessageSlot(Target(schema.fields[At()].sub, old(Abs()).slots[At()])))
      ensures kid == kids[0] && kid.Valid() && kid.Repr <= Repr - {this} && kid.schema == schema.fields[At()].sub
      ensures kid.Abs() == Target(schema.fields[At()].sub, old(Abs()).slots[At()])
    {
      hide Valid, Abs, Put, Default, Target, IsCleared;
      KidIs();
      if kids == [] {
        kid := new GeneratedMessage(schema.fields[At()].sub);
        kids := [kid];
        Repr := Repr + kid.Repr;
      } else {
        kid := kids[0];
        if At() !in has {
          kid.ClearedIsDefault();
        }
      }
      has := has + {At()};
      SoleKid();
    }

    /** Makes `kid` the last element of the repeated field. */
    method AppendKid(kid: GeneratedMessage)
      requires Valid() && kid.Valid() && Repr !! kid.Repr
      requires At() < |schema.fields| && schema.fields[At()].KRepeated? && kid.schema == schema.fields[At()].sub
      modifies this`kids, this`Repr
      ensures Valid() && Repr == old(Repr) + kid.Repr
      ensures Abs() == Put(old(Abs()), At(), ListSlot(Items(old(Abs()).slots[At()]) + [old(kid.Abs())]))
    {
      hide CellFits, SlotAt, IsCleared, Put, Items, Supported, ValidOptional, KidMsgs;
      kids := kids + [kid];
      Repr := Repr + kid.Repr;
      AppendedElement(old(Repr) - {this});
    }

    // ---------------------------------------------------------------- Clear

    /** The sole nested message was modified in place. */
    twostate lemma KidTouched()
      requires old(Valid()) && unchanged(this) && |kids| == 1
      requires kids[0].Valid() && kids[0].Repr == old(kids[0].Repr)
      ensures KidsValid()
    {
      assert KidsPlaced();
    }

    method ClearMembers()
      requires Valid()
      modifies Repr
      ensures Valid() && has == old(has) && kids == old(kids) && Repr == old(Repr) && cachedSize == old(cachedSize)
      ensures forall j :: 0 <= j < |cells| ==> Empty(cells[j])
      ensures At() < |schema.fields| && schema.fields[At()].KMessage? && kids != [] ==> kids[0].IsCleared()
      decreases Repr, 0
    {
      var i := 0;
      while i < |schema.fields|
        invariant 0 <= i <= |schema.fields|
        invariant Valid() && has == old(has) && kids == old(kids) && Repr == old(Repr) && cachedSize == old(cachedSize)
        invariant forall j :: 0 <= j < i ==> Empty(cells[j])
        invariant At() < i && schema.fields[At()].KMessage? && kids != [] ==> kids[0].IsCleared()
      {
        ClearMember(i);
        i := i + 1;
      }
    }

    method ClearMember(i: nat)
      requires Valid() && i < |schema.fields|
      modifies Repr
      ensures Valid() && has == old(has) && kids == old(kids) && Repr == old(Repr) && cachedSize == old(cachedSize)
      ensures |cells| == old(|cells|) && Empty(cells[i])
      ensures forall j :: 0 <= j < |cells| && j != i ==> cells[j] == old(cells[j])
      ensures i != At() ==> unchanged(Repr - {this})
      ensures i == At() && schema.fields[At()].KMessage? && kids != [] ==> kids[0].IsCleared()
      decreases Repr, 0, 0
    {
      assert CellFits(schema.fields[i], cells[i], i in has);
      if IsNested(schema.fields[i]) {
        if schema.fields[i].KMessage? && i in has {
          kids[0].Clear();
          KidTouched();
        }
      } else {
        ClearScalarMember(i);
      }
    }

    method ClearScalarMember(i: nat)
      requires Valid() && i < |schema.fields| && !IsNested(schema.fields[i])
      modifies this`cells
      ensures Valid() && |cells| == old(|cells|) && Empty(cells[i])
      ensures forall j :: 0 <= j < |cells| && j != i ==> cells[j] == old(cells[j])
    {
      assert CellFits(schema.fields[i], cells[i], i in has);
      if schema.fields[i].KUint32? {
        cells := cells[i := NumCell(0)];
      } else if i in has && cells[i].str.Owned? {
        cells := cells[i := StrCell(Owned([]))];
      }
      StillValid();
    }

    method Clear()
      requires Valid()
      modifies Repr
      ensures Valid() && IsCleared() && Abs() == Default(schema) && Repr == old(Repr)
      decreases Repr, 1
    {
      if has != {} {
        ClearMembers();
      }
      forall j | 0 <= j < |cells|
        ensures CellFits(schema.fields[j], cells[j], false)
      {
        assert CellFits(schema.fields[j], cells[j], j in has);
        EmptyFits(schema.fields[j], cells[j], j in has);
      }
      if At() < |schema.fields| && schema.fields[At()].KRepeated? {
        kids := [];
      }
      has := {};
      unknown := [];
      assert ValidCells();
      assert KidsValid();
      ClearedIsDefault();
    }

    /** clear_info(): the nested message is kept and cleared. */
    method ClearKid()
      requires Valid() && At() < |schema.fields| && schema.fields[At()].KMessage?
      modifies Repr
      ensures Valid() && Repr == old(Repr) && Abs() == Put(old(Abs()), At(), Unset)
    {
      if kids != [] {
        kids[0].Clear();
        KidTouched();
      }
      has := has - {At()};
      NestedChanged(At());
    }

    /** clear_list() */
    method ClearElements()
      requires Valid() && At() < |schema.fields| && schema.fields[At()].KRepeated?
      modifies this`kids
      ensures Valid() && Abs() == Put(old(Abs()), At(), ListSlot([]))
    {
      kids := [];
      NestedChanged(At());
    }

    /** The nested message is no longer part of this one. */
    twostate lemma KidGone()
      requires old(Valid()) && unchanged(this`cells, this`unknown)
      requires At() < |schema.fields| && schema.fields[At()].KMessage?
      requires kids == [] && has == old(has) - {At()} && this in Repr
      ensures Valid() && Abs() == Put(old(Abs()), At(), Unset)
    {
      assert KidsPlaced();
      NestedChanged(At());
    }

    /** Hands the nested message over; one that was not set is null or cleared. */
    method ReleaseKid() returns (kid: GeneratedMessage?)
      requires Valid() && At() < |schema.fields| && schema.fields[At()].KMessage?
      modifies this`has, this`kids, this`Repr
      ensures Valid() && Repr <= old(Repr) && Abs() == Put(old(Abs()), At(), Unset)
      ensures kid != null ==> kid.Valid() && kid.Repr !! Repr && kid.Repr <= old(Repr)
      ensures if old(SlotAt(At())).MessageSlot? then kid != null && kid.Abs() == old(SlotAt(At())).msg
              else kid != null ==> kid.Abs() == Default(kid.schema)
    {
      hide KidMsgs, Put, Fits, Supported, AtMostOneNested, ValidCells, IsCleared, CellFits;
      has := has - {At()};
      if kids == [] {
        kid := null;
      } else {
        kid := kids[0];
        kids := [];
        Repr := Repr - kid.Repr;
        if At() !in old(has) {
          kid.ClearedIsDefault();
        }
      }
      KidGone();
    }

    /** set_allocated_info(): takes `kid` over in place of the nested message it had. */
    method SetAllocatedKid(kid: GeneratedMessage?)
      requires Valid() && At() < |schema.fields| && schema.fields[At()].KMessage?
      requires kid != null ==> kid.Valid() && kid.schema == schema.fields[At()].sub && kid.Repr !! Repr
      modifies this`has, this`kids, this`Repr
      ensures Valid()
      ensures Abs() == Put(old(Abs()), At(), if kid == null then Unset else MessageSlot(old(kid.Abs())))
    {
      hide Valid, Abs, Put, NestedIndex;
      if kid == null {
        kids := [];
        has := has - {At()};
        KidGone();
      } else {
        kids := [kid];
        Repr := Repr + kid.Repr;
        has := has + {At()};
        SoleKid();
      }
    }

    // ---------------------------------------------------------------- MergeFrom, CopyFrom, Swap

    /** mutable_info()->MergeFrom(...) */
    method MergeKid(theirs: GeneratedMessage)
      requires Valid() && theirs.Valid() && Repr !! theirs.Repr
      requires At() < |schema.fields| && schema.fields[At()].KMessage? && theirs.schema == schema.fields[At()].sub
      modifies Repr
      ensures Valid() && fresh(Repr - old(Repr)) && old(Repr) <= Repr
      ensures Abs() == Put(old(Abs()), At(),
                MessageSlot(Merge(Target(schema.fields[At()].sub, old(Abs()).slots[At()]), old(theirs.Abs()))))
      decreases theirs.Repr, 5
    {
      hide Valid, KidsValid, Abs, Merge, Put, Target, NestedIndex;
      var kid := MutableKid();
      kid.MergeFrom(theirs);
      Repr := Repr + kid.Repr;
      SoleKid();
    }

    /** user_list_.Add()->MergeFrom(...) */
    method AddMerged(theirs: GeneratedMessage)
      requires Valid() && theirs.Valid() && Repr !! theirs.Repr
      requires At() < |schema.fields| && schema.fields[At()].KRepeated? && theirs.schema == schema.fields[At()].sub
      modifies Repr
      ensures Valid() && fresh(Repr - old(Repr)) && old(Repr) <= Repr
      ensures Abs() == Put(old(Abs()), At(), ListSlot(Items(old(Abs()).slots[At()]) + [old(theirs.Abs())]))
      decreases theirs.Repr, 5
    {
      hide Valid, KidsValid, Abs, Merge, Put, Items, NestedIndex, Default;
      theirs.AbsFits();
      MergeDefaultLeft(theirs.schema, theirs.Abs());
      var kid := new GeneratedMessage(theirs.schema);
      kid.MergeFrom(theirs);
      AppendKid(kid);
    }

    lemma SlotsAre(i: nat)
      requires Valid() && i < |schema.fields|
      ensures Abs().slots[i] == SlotAt(i)
    {
    }

    lemma ElementsAre()
      requires Valid() && At() < |schema.fields| && schema.fields[At()].KRepeated?
      ensures Abs().slots[At()] == ListSlot(KidMsgs(|kids|))
    {
    }

    /** What a has-bit stands for is there. */
    lemma SetIsThere(i: nat)
      requires Valid() && i < |schema.fields|
      ensures |cells| == |schema.fields| && (IsNested(schema.fields[i]) ==> i == At())
      ensures i in has ==> CellFits(schema.fields[i], cells[i], true)
      ensures i in has && schema.fields[i].KMessage? ==> |kids| == 1 && kids[0].schema == schema.fields[i].sub
    {
    }

    /** `mine` with the first `j` elements of the other message appended. */
    ghost function Appended(mine: Msg, theirs: seq<Msg>, j: nat): Msg
      requires At() < |mine.slots| && j <= |theirs|
    {
      Put(mine, At(), ListSlot(Items(mine.slots[At()]) + theirs[..j]))
    }

    /** Nothing has been appended, or everything. */
    lemma AppendedEnds(mine: Msg, theirs: seq<Msg>)
      requires At() < |mine.slots| && mine.slots[At()].ListSlot?
      ensures Appended(mine, theirs, 0) == mine
      ensures Appended(mine, theirs, |theirs|) == Put(mine, At(), MergeSlot(mine.slots[At()], ListSlot(theirs)))
    {
      assert Items(mine.slots[At()]) + theirs[..0] == Items(mine.slots[At()]);
      assert mine.slots == mine.slots[At() := mine.slots[At()]];
      assert theirs[..|theirs|] == theirs;
    }

    method AddElement(from: GeneratedMessage, j: nat, ghost mine: Msg)
      requires Valid() && from.Valid() && from.schema == schema && Repr !! from.Repr
      requires At() < |schema.fields| && schema.fields[At()].KRepeated? && j < |from.kids|
      requires |mine.slots| == |schema.fields|
      requires Abs() == Appended(mine, from.KidMsgs(|from.kids|), j)
      modifies Repr
      ensures Valid() && fresh(Repr - old(Repr)) && old(Repr) <= Repr
      ensures Abs() == Appended(mine, old(from.KidMsgs(|from.kids|)), j + 1)
      decreases from.Repr, 1
    {
      ghost var theirs := from.KidMsgs(|from.kids|);
      PutLonger(mine, At(), Items(mine.slots[At()]), theirs, j);
      AddMerged(from.kids[j]);
    }

    /** list_.MergeFrom(from.list_) */
    method MergeElements(from: GeneratedMessage)
      requires Valid() && from.Valid() && from.schema == schema && Repr !! from.Repr
      requires At() < |schema.fields| && schema.fields[At()].KRepeated?
      modifies Repr
      ensures Valid() && fresh(Repr - old(Repr)) && old(Repr) <= Repr
      ensures Abs() == Put(old(Abs()), At(), MergeSlot(old(Abs()).slots[At()], old(from.Abs()).slots[At()]))
      decreases from.Repr, 2
    {
      hide Valid, KidsValid, KidMsgs, SlotAt, NestedIndex, Appended, Put, Items, MergeSlot;
      ghost var mine, theirs := Abs(), from.KidMsgs(|from.kids|);
      ElementsAre();
      from.ElementsAre();
      AppendedEnds(mine, theirs);
      var j := 0;
      while j < |from.kids|
        invariant 0 <= j <= |from.kids|
        invariant Valid() && fresh(Repr - old(Repr)) && old(Repr) <= Repr
        invariant Abs() == Appended(mine, theirs, j)
      {
        AddElement(from, j, mine);
        j := j + 1;
      }
    }

    method MergeMember(i: nat, from: GeneratedMessage)
      requires Valid() && from.Valid() && from.schema == schema && Repr !! from.Repr
      requires i in from.has
      modifies Repr
      ensures Valid() && fresh(Repr - old(Repr)) && old(Repr) <= Repr
      ensures Abs() == Put(old(Abs()), i, MergeSlot(old(Abs()).slots[i], old(from.Abs()).slots[i]))
      decreases from.Repr, 2
    {
      AbsFits();
      from.AbsFits();
      from.SlotsAre(i);
      match schema.fields[i] {
        case KBytes => SetBytes(i, from.cells[i].str.text);
        case KUint32 => SetUint(i, from.cells[i].num);
        case KMessage(sub) =>
          MergeIntoTarget(sub, Abs().slots[i], from.kids[0].Abs());
          MergeKid(from.kids[0]);
      }
    }

    /** Merging into a nested message that may not be there yet. */
    lemma MergeIntoTarget(sub: Schema, x: Slot, m: Msg)
      requires Fits(sub, m) && (x.Unset? || x.MessageSlot?)
      ensures MergeSlot(x, MessageSlot(m)) == MessageSlot(Merge(Target(sub, x), m))
    {
      MergeDefaultLeft(sub, m);
    }

    method MergeMembers(from: GeneratedMessage)
      requires Valid() && from.Valid() && from.schema == schema && Repr !! from.Repr
      modifies Repr
      ensures Valid() && fresh(Repr - old(Repr)) && old(Repr) <= Repr && unknown == old(unknown)
      ensures forall i :: 0 <= i < |schema.fields| ==>
                Abs().slots[i] == MergedIf(i in old(from.has), old(Abs()).slots[i], old(from.Abs()).slots[i])
      decreases from.Repr, 3
    {
      hide Valid, Abs, SlotAt, MergeSlot;
      ghost var mine, theirs := Abs(), from.Abs();
      var i := 0;
      while i < |schema.fields|
        invariant 0 <= i <= |schema.fields|
        invariant Valid() && fresh(Repr - old(Repr)) && old(Repr) <= Repr && unknown == old(unknown)
        invariant from.Abs() == theirs
        invariant forall j :: 0 <= j < |schema.fields| ==>
                    Abs().slots[j] == MergedIf(j < i && j in from.has, mine.slots[j], theirs.slots[j])
      {
        if i in from.has {
          MergeMember(i, from);
        }
        i := i + 1;
      }
    }

    lemma NoBitIfRepeated()
      requires Valid()
      ensures forall i <- has :: i < |schema.fields| && !schema.fields[i].KRepeated?
    {
    }

    /** A field without a has-bit is not seen by a merge, unless it is repeated. */
    lemma UnsetMerges(xs: seq<Slot>)
      requires Valid() && |xs| == |schema.fields|
      ensures forall i :: 0 <= i < |schema.fields| && i !in has && !schema.fields[i].KRepeated? ==>
                MergeSlot(xs[i], Abs().slots[i]) == xs[i]
    {
    }

    method MergeRepeated(from: GeneratedMessage)
      requires Valid() && from.Valid() && from.schema == schema && Repr !! from.Repr
      modifies Repr
      ensures Valid() && fresh(Repr - old(Repr)) && old(Repr) <= Repr && unknown == old(unknown)
      ensures forall i :: 0 <= i < |schema.fields| ==>
                Abs().slots[i] == MergedIf(schema.fields[i].KRepeated?, old(Abs()).slots[i], old(from.Abs()).slots[i])
      decreases from.Repr, 3
    {
      if At() < |schema.fields| && schema.fields[At()].KRepeated? {
        MergeElements(from);
      }
    }

    method MergeFrom(from: GeneratedMessage)
      requires Valid() && from.Valid() && from.schema == schema && Repr !! from.Repr
      modifies Repr
      ensures Valid() && fresh(Repr - old(Repr)) && old(Repr) <= Repr
      ensures Abs() == Merge(old(Abs()), old(from.Abs()))
      decreases from.Repr, 4
    {
      hide *;
      ghost var mine, theirs := Abs(), from.Abs();
      from.NoBitIfRepeated();
      from.UnsetMerges(mine.slots);
      MergeRepeated(from);
      ghost var between := Abs().slots;
      if from.has != {} {
        MergeMembers(from);
      }
      MergedInTwo(schema.fields, from.has, mine, theirs, between, Abs());
      AddUnknowns(from.unknown);
    }

    method CopyFrom(from: GeneratedMessage)
      requires Valid() && from.Valid() && from.schema == schema && (from == this || Repr !! from.Repr)
      modifies Repr
      ensures Valid() && fresh(Repr - old(Repr))
      ensures Abs() == old(from.Abs())
    {
      hide Valid, Abs, Merge, Default, Fits;
      if from == this {
        return;
      }
      from.AbsFits();
      MergeDefaultLeft(schema, from.Abs());
      Clear();
      MergeFrom(from);
    }

    twostate lemma TookOverKids(other: GeneratedMessage)
      requires old(other.Valid()) && other.schema == schema && has == old(other.has) && kids == old(other.kids)
      requires Repr == old(other.Repr) - {other} + {this} && this !in old(other.Repr) - {other}
      requires unchanged(old(other.Repr) - {other})
      ensures KidsValid() && ValidOptional() && KidMsgs(|kids|) == old(other.KidMsgs(|other.kids|))
    {
      hide ValidCells, NestedIndex;
      forall j | 0 <= j < |kids|
        ensures kids[j].Valid() && kids[j].Abs() == old(other.kids[j].Abs())
      {
        assert kids[j] == old(other.kids[j]) && old(other.kids[j].Valid());
      }
    }

    /** This message now has every member that `other` had. */
    twostate lemma TookOver(other: GeneratedMessage)
      requires old(other.Valid()) && other.schema == schema
      requires has == old(other.has) && cells == old(other.cells) && kids == old(other.kids)
      requires unknown == old(other.unknown)
      requires Repr == old(other.Repr) - {other} + {this} && this !in old(other.Repr) - {other}
      requires unchanged(old(other.Repr) - {other})
      ensures Valid() && Abs() == old(other.Abs())
    {
      hide CellFits, KidsPlaced, NestedIndex, IsCleared;
      TookOverKids(other);
      forall i | 0 <= i < |schema.fields|
        ensures SlotAt(i) == old(other.SlotAt(i))
      {
        SetIsThere(i);
        assert kids != [] ==> KidMsgs(|kids|)[0] == old(other.KidMsgs(|other.kids|))[0];
      }
      assert Abs().slots == old(other.Abs()).slots;
    }

    method Swap(other: GeneratedMessage)
      requires Valid() && other.Valid() && other.schema == schema && (other == this || Repr !! other.Repr)
      modifies this, other
      ensures Valid() && other.Valid()
      ensures Abs() == old(other.Abs()) && other.Abs() == old(Abs())
      ensures cachedSize == old(other.cachedSize) && other.cachedSize == old(cachedSize)
    {
      if other != this {
        has, other.has := other.has, has;
        cells, other.cells := other.cells, cells;
        kids, other.kids := other.kids, kids;
        unknown, other.unknown := other.unknown, unknown;
        cachedSize, other.cachedSize := other.cachedSize, cachedSize;
        Repr, other.Repr := other.Repr - {other} + {this}, Repr - {this} + {other};
        TookOver(other);
        other.TookOver(this);
      }
    }

    // ---------------------------------------------------------------- ByteSize

    /** The nested messages that the message presents. */
    ghost predicate Shown()
      reads this`has
    {
      At() < |schema.fields| && (schema.fields[At()].KRepeated? || At() in has)
    }

    /** The cached size of this message and of every nested message is its size. */
    ghost predicate CachedSizesRight()
      reads this`has, this`cells, this`kids, this`unknown, this`Repr, this`cachedSize
      reads (Repr - {this})`has, (Repr - {this})`cells, (Repr - {this})`kids
      reads (Repr - {this})`unknown, (Repr - {this})`Repr
      reads (Repr - {this})`cachedSize
      requires Valid()
      decreases Repr, 1
    {
      && cachedSize == Size(schema, Abs())
      && (Shown() ==> KidsSized(|kids|))
    }

    /** The first `n` nested messages have right cached sizes throughout. */
    ghost predicate KidsSized(n: nat)
      reads this`kids, this`Repr
      reads (Repr - {this})`has, (Repr - {this})`cells, (Repr - {this})`kids
      reads (Repr - {this})`unknown, (Repr - {this})`Repr
      reads (Repr - {this})`cachedSize
      requires KidsValid() && n <= |kids|
      ensures KidsSized(n) ==> forall j :: 0 <= j < n ==> kids[j].CachedSizesRight()
      decreases Repr, 0
    {
      forall j :: 0 <= j < n ==> kids[j].CachedSizesRight()
    }

    method ByteSize() returns (total: Length)
      requires Valid() && Size(schema, Abs()) <= INT_MAX
      modifies Repr`cachedSize
      ensures CachedSizesRight() && total == cachedSize == Size(schema, Abs())
      decreases Repr, 3
    {
      total := MembersByteSize();
      total := total + UnknownsSize(unknown);
      cachedSize := total;
    }

    /** The optional members first, if a has-bit is set, then the repeated ones. */
    method MembersByteSize() returns (total: Length)
      requires Valid()
      requires OptionalSizes(schema.fields, Abs().slots) + RepeatedSizes(schema.fields, Abs().slots) <= INT_MAX
      modifies Repr`cachedSize
      ensures total == OptionalSizes(schema.fields, Abs().slots) + RepeatedSizes(schema.fields, Abs().slots)
      ensures Shown() ==> KidsSized(|kids|)
      decreases Repr, 2
    {
      hide OptionalSizes, RepeatedSizes, KidsSized, Valid;
      total := 0;
      if has != {} {
        total := OptionalByteSize();
      } else {
        NothingSet(schema.fields, Abs().slots, 0);
      }
      var repeated := RepeatedByteSize();
      total := total + repeated;
    }

    lemma NothingSet(ks: seq<Kind>, slots: seq<Slot>, i: nat)
      requires Valid() && has == {} && i <= |schema.fields|
      requires ks == schema.fields[i..] && slots == Abs().slots[i..]
      ensures OptionalSizes(ks, slots) == 0
      decreases |ks|
    {
      if ks != [] {
        SlotsAre(i);
        NothingSet(ks[1..], slots[1..], i + 1);
      }
    }

    /** What one optional field adds, if it is set. */
    method FieldByteSize(i: nat) returns (n: Length)
      requires Valid() && i < |schema.fields| && OptionalSize(schema.fields[i], Abs().slots[i]) <= INT_MAX
      modifies Repr`cachedSize
      ensures Abs() == old(Abs()) && n == OptionalSize(schema.fields[i], old(Abs()).slots[i])
      ensures i == At() && Shown() && schema.fields[At()].KMessage? ==> KidsSized(|kids|)
      ensures i != At() ==> unchanged(Repr`cachedSize)
      decreases Repr, 1, 0
    {
      SlotsAre(i);
      n := 0;
      if i in has {
        match schema.fields[i] {
          case KBytes => n := 1 + DelimitedSize(|cells[i].str.text|);
          case KUint32 => n := 1 + VarintSize32(cells[i].num);
          case KMessage(_) =>
            var nested := kids[0].ByteSize();
            n := 1 + DelimitedSize(nested);
        }
      }
    }

    method OptionalByteSize() returns (total: Length)
      requires Valid() && OptionalSizes(schema.fields, Abs().slots) <= INT_MAX
      modifies Repr`cachedSize
      ensures total == OptionalSizes(schema.fields, Abs().slots)
      ensures Shown() && schema.fields[At()].KMessage? ==> KidsSized(|kids|)
      decreases Repr, 1, 1
    {
      hide OptionalSize, OptionalSizes, SlotAt, Shown;
      OptionalSizesEnds(schema.fields, Abs().slots);
      ghost var ks, slots := schema.fields, Abs().slots;
      total := 0;
      var i := 0;
      while i < |schema.fields|
        invariant 0 <= i <= |schema.fields|
        invariant total + OptionalSizes(ks[i..], slots[i..]) == OptionalSizes(ks, slots)
        invariant At() < i && Shown() && schema.fields[At()].KMessage? ==> KidsSized(|kids|)
      {
        OptionalSizesStep(ks, slots, i);
        var n := FieldByteSize(i);
        total := total + n;
        i := i + 1;
      }
    }

    lemma OnlyOneRepeated(ks: seq<Kind>, slots: seq<Slot>, i: nat)
      requires Valid() && i <= |schema.fields|
      requires ks == schema.fields[i..] && slots == Abs().slots[i..]
      ensures RepeatedSizes(ks, slots) ==
        if i <= At() < |schema.fields| && schema.fields[At()].KRepeated? then
          |kids| + ElementSizes(schema.fields[At()].sub, KidMsgs(|kids|)) else 0
      decreases |ks|
    {
      if ks != [] {
        SlotsAre(i);
        OnlyOneRepeated(ks[1..], slots[1..], i + 1);
      }
    }

    method RepeatedByteSize() returns (total: Length)
      requires Valid() && RepeatedSizes(schema.fields, Abs().slots) <= INT_MAX
      modifies Repr`cachedSize
      ensures total == RepeatedSizes(schema.fields, Abs().slots)
      ensures Shown() && schema.fields[At()].KRepeated? ==> KidsSized(|kids|)
      ensures At() < |schema.fields| && schema.fields[At()].KMessage? ==> unchanged(Repr`cachedSize)
      decreases Repr, 1
    {
      hide CellFits, IsCleared, Supported, Size, OptionalSizes, KidMsgs;
      total := 0;
      OnlyOneRepeated(schema.fields, Abs().slots, 0);
      if At() < |schema.fields| && schema.fields[At()].KRepeated? {
        total := ElementsByteSize();
      }
    }

    method ElementByteSize(i: nat) returns (n: Length)
      requires Valid() && i < |kids| && KidsSized(i)
      requires At() < |schema.fields| && schema.fields[At()].KRepeated?
      requires Size(schema.fields[At()].sub, KidMsgs(|kids|)[i]) <= INT_MAX
      modifies kids[i].Repr`cachedSize
      ensures n == Size(schema.fields[At()].sub, old(KidMsgs(|kids|))[i]) && KidMsgs(|kids|) == old(KidMsgs(|kids|))
      ensures KidsSized(i + 1)
      decreases Repr, 0, 0
    {
      hide Valid, Size, SlotAt;
      n := kids[i].ByteSize();
    }

    lemma NothingSized()
      requires Valid()
      ensures KidsSized(0) && KidMsgs(|kids|)[0..] == KidMsgs(|kids|)
    {
    }

    method ElementsByteSize() returns (total: Length)
      requires Valid() && At() < |schema.fields| && schema.fields[At()].KRepeated?
      requires |kids| + ElementSizes(schema.fields[At()].sub, KidMsgs(|kids|)) <= INT_MAX
      modifies Repr`cachedSize
      ensures total == |kids| + ElementSizes(schema.fields[At()].sub, KidMsgs(|kids|))
      ensures KidsSized(|kids|)
      decreases Repr, 0, 1
    {
      hide Valid, KidsValid, KidMsgs, SlotAt, NestedIndex, Size, DelimitedSize, KidsSized;
      ghost var sub, ms := schema.fields[At()].sub, KidMsgs(|kids|);
      NothingSized();
      total := |kids|;
      var i := 0;
      while i < |kids|
        invariant 0 <= i <= |kids|
        invariant total + ElementSizes(sub, ms[i..]) == |kids| + ElementSizes(sub, ms)
        invariant KidsSized(i) && KidMsgs(|kids|) == ms
      {
        ElementSizesStep(sub, ms, i);
        var n := ElementByteSize(i);
        total := total + DelimitedSize(n);
        i := i + 1;
      }
    }

    // ---------------------------------------------------------------- SerializeWithCachedSizes

    /** Ready to be written: the cached sizes are up to date and no length exceeds its prefix. */
    ghost predicate Ready()
      reads this`has, this`cells, this`kids, this`unknown, this`Repr, this`cachedSize
      reads (Repr - {this})`has, (Repr - {this})`cells, (Repr - {this})`kids
      reads (Repr - {this})`unknown, (Repr - {this})`Repr
      reads (Repr - {this})`cachedSize
      ensures Ready() ==> Valid()
    {
      Valid() && CachedSizesRight() && Writable(schema, Abs()) && OneByteTags(schema)
    }

    lemma ReadySize()
      requires Ready()
      ensures cachedSize == |Serialize(schema, Abs())|
    {
      SizeExact(schema, Abs());
    }

    /** What is shown of a message that is ready is ready. */
    lemma KidReady(j: nat)
      requires Ready() && Shown() && j < |kids|
      ensures kids[j].Ready()
      ensures kids[j].cachedSize < TWO_32
    {
      SlotsAre(At());
      assert WritableSlot(schema.fields[At()], Abs().slots[At()]);
      if schema.fields[At()].KRepeated? {
        assert WritableNested(kids[j].schema, KidMsgs(|kids|)[j]);
      }
      assert OneByteKind(schema.fields[At()]);
      assert kids[j].CachedSizesRight();
      kids[j].ReadySize();
    }

    ghost function KidBytes(j: nat): Bytes
      reads this`has, this`cells, this`kids, this`unknown, this`Repr
      reads (Repr - {this})`has, (Repr - {this})`cells, (Repr - {this})`kids
      reads (Repr - {this})`unknown, (Repr - {this})`Repr
      requires Valid() && At() < |schema.fields| && j < |kids|
    {
      FieldTag(schema.fields[At()], At() + 1) + Delimited(Serialize(kids[j].schema, kids[j].Abs()))
    }

    /** The elements from index `j` on. */
    ghost function ElementsFrom(j: nat): Bytes
      reads this`has, this`cells, this`kids, this`unknown, this`Repr
      reads (Repr - {this})`has, (Repr - {this})`cells, (Repr - {this})`kids
      reads (Repr - {this})`unknown, (Repr - {this})`Repr
      requires Valid() && At() < |schema.fields| && IsNested(schema.fields[At()]) && j <= |kids|
    {
      SerializeList(FieldTag(schema.fields[At()], At() + 1), schema.fields[At()].sub, KidMsgs(|kids|)[j..])
    }

    lemma ElementsFromStep(j: nat)
      requires Valid() && At() < |schema.fields| && IsNested(schema.fields[At()]) && j < |kids|
      ensures ElementsFrom(j) == KidBytes(j) + ElementsFrom(j + 1)
    {
      SerializeListStep(FieldTag(schema.fields[At()], At() + 1), schema.fields[At()].sub, KidMsgs(|kids|), j);
    }

    lemma AllElements()
      requires Valid() && At() < |schema.fields| && schema.fields[At()].KRepeated?
      ensures ElementsFrom(0) == SerializeSlot(schema.fields[At()], At() + 1, Abs().slots[At()])
      ensures ElementsFrom(|kids|) == []
    {
      SlotsAre(At());
      assert KidMsgs(|kids|)[0..] == KidMsgs(|kids|);
    }

    /** The field's tag, then the cached size as the length, then the nested message. */
    method WriteKid(j: nat, output: Bytes) returns (written: Bytes)
      requires Ready() && Shown() && j < |kids|
      ensures written == output + KidBytes(j)
      decreases Repr, 0
    {
      KidReady(j);
      kids[j].ReadySize();
      var head := FieldTag(schema.fields[At()], At() + 1) + Varint(kids[j].cachedSize);
      ghost var body := Serialize(kids[j].schema, kids[j].Abs());
      assert head + body == KidBytes(j);
      Written(output, head, body, KidBytes(j));
      written := kids[j].SerializeWithCachedSizes(output + head);
    }

    /** Writes one element of `whole`, the output there will be. */
    method WriteNext(j: nat, output: Bytes, ghost whole: Bytes) returns (written: Bytes)
      requires Ready() && Shown() && schema.fields[At()].KRepeated? && j < |kids|
      requires output + ElementsFrom(j) == whole
      ensures written + ElementsFrom(j + 1) == whole
      decreases Repr, 1
    {
      hide ElementsFrom, KidBytes;
      ElementsFromStep(j);
      Written(output, KidBytes(j), ElementsFrom(j + 1), ElementsFrom(j));
      written := WriteKid(j, output);
    }

    method WriteKids(output: Bytes) returns (written: Bytes)
      requires Ready() && At() < |schema.fields| && schema.fields[At()].KRepeated?
      ensures written == output + ElementsFrom(0)
      decreases Repr, 2
    {
      hide Ready, Valid, ElementsFrom;
      ghost var whole := output + ElementsFrom(0);
      written := output;
      var j := 0;
      while j < |kids|
        invariant 0 <= j <= |kids| && written + ElementsFrom(j) == whole
      {
        written := WriteNext(j, written, whole);
        j := j + 1;
      }
      AllElements();
    }

    method WriteField(i: nat, output: Bytes) returns (written: Bytes)
      requires Ready() && i < |schema.fields|
      ensures written == output + SerializeSlot(schema.fields[i], i + 1, Abs().slots[i])
      decreases Repr, 3
    {
      hide Ready, Valid, FieldTag, Delimited, Serialize, SerializeList, ElementsFrom, Patch;
      SlotsAre(i);
      SetIsThere(i);
      written := output;
      if schema.fields[i].KRepeated? {
        AllElements();
        written := WriteKids(output);
      } else if i in has {
        match schema.fields[i] {
          case KBytes => written := output + (FieldTag(KBytes, i + 1) + Delimited(cells[i].str.text));
          case KUint32 => written := output + (FieldTag(KUint32, i + 1) + Varint(cells[i].num));
          case KMessage(_) => written := WriteKid(0, output);
        }
      }
    }

    method SerializeWithCachedSizes(output: Bytes) returns (written: Bytes)
      requires Ready()
      ensures written == output + Serialize(schema, Abs())
      decreases Repr, 4
    {
      hide Ready, Valid, FieldsFrom, SerializeSlot, Serialize;
      ghost var m := Abs();
      FieldsFromEnds(schema, m);
      written := output;
      var i := 0;
      while i < |schema.fields|
        invariant 0 <= i <= |schema.fields|
        invariant written + FieldsFrom(schema, m, i) == output + Serialize(schema, m)
      {
        FieldsFromStep(schema, m, i);
        Written(written, SerializeSlot(schema.fields[i], i + 1, m.slots[i]), FieldsFrom(schema, m, i + 1),
                FieldsFrom(schema, m, i));
        written := WriteField(i, written);
        i := i + 1;
      }
      if unknown != [] {
        written := written + SerializeUnknowns(unknown);
      }
    }

    // ---------------------------------------------------------------- SerializeWithCachedSizesToArray

    method WriteKidToArray(j: nat, target: array<Byte>, start: nat) returns (end: nat)
      requires Ready() && Shown() && j < |kids| && start + |KidBytes(j)| <= target.Length
      modifies target
      ensures end == start + |old(KidBytes(j))| && target[..] == Patch(old(target[..]), start, old(KidBytes(j)))
      decreases Repr, 0
    {
      hide Patch, Serialize, Varint, Writable, OneByteTags, CachedSizesRight;
      KidReady(j);
      kids[j].ReadySize();
      var head := FieldTag(schema.fields[At()], At() + 1) + Varint(kids[j].cachedSize);
      ghost var body := Serialize(kids[j].schema, kids[j].Abs());
      assert head + body == KidBytes(j);
      PatchTwice(target[..], start, head, body);
      end := WriteToArray(head, target, start);
      end := kids[j].SerializeWithCachedSizesToArray(target, end);
    }

    /** Writes the element after those that were written to `before` from `start` on. */
    method WriteNextToArray(j: nat, target: array<Byte>, at: nat, ghost all: Bytes, ghost before: Bytes,
                            ghost start: nat)
        returns (end: nat)
      requires Ready() && Shown() && schema.fields[At()].KRepeated? && j < |kids|
      requires WrittenUpTo(ElementsFrom(j), all, before, start, target[..], at)
      modifies target
      ensures WrittenUpTo(ElementsFrom(j + 1), all, before, start, target[..], end)
      decreases Repr, 1
    {
      hide WrittenUpTo, ElementsFrom, KidBytes, Patch;
      ElementsFromStep(j);
      WrittenNext(ElementsFrom(j), all, before, start, target[..], at, KidBytes(j), ElementsFrom(j + 1));
      end := WriteKidToArray(j, target, at);
    }

    method WriteKidsToArray(target: array<Byte>, start: nat) returns (end: nat)
      requires Ready() && At() < |schema.fields| && schema.fields[At()].KRepeated?
      requires start + |ElementsFrom(0)| <= target.Length
      modifies target
      ensures end == start + |old(ElementsFrom(0))| && target[..] == Patch(old(target[..]), start, old(ElementsFrom(0)))
      decreases Repr, 2
    {
      hide WrittenUpTo, Patch, ElementsFrom, CellFits, KidMsgs, Serialize, Writable;
      ghost var all, before := ElementsFrom(0), target[..];
      WrittenNothing(all, before, start);
      end := start;
      var j := 0;
      while j < |kids|
        invariant 0 <= j <= |kids|
        invariant WrittenUpTo(ElementsFrom(j), all, before, start, target[..], end)
      {
        end := WriteNextToArray(j, target, end, all, before, start);
        j := j + 1;
      }
      AllElements();
      WrittenAll(all, before, start, target[..], end);
    }

    method WriteFieldToArray(i: nat, target: array<Byte>, start: nat) returns (end: nat)
      requires Ready() && i < |schema.fields|
      requires start + |SerializeSlot(schema.fields[i], i + 1, Abs().slots[i])| <= target.Length
      modifies target
      ensures var b := old(SerializeSlot(schema.fields[i], i + 1, Abs().slots[i]));
              end == start + |b| && target[..] == Patch(old(target[..]), start, b)
      decreases Repr, 3
    {
      hide Ready, Valid, FieldTag, Delimited, Serialize, SerializeList, ElementsFrom, Patch;
      SlotsAre(i);
      SetIsThere(i);
      end := start;
      PatchNothing(target[..], start);
      if schema.fields[i].KRepeated? {
        AllElements();
        end := WriteKidsToArray(target, start);
      } else if i in has {
        match schema.fields[i] {
          case KBytes => end := WriteToArray(FieldTag(KBytes, i + 1) + Delimited(cells[i].str.text), target, start);
          case KUint32 => end := WriteToArray(FieldTag(KUint32, i + 1) + Varint(cells[i].num), target, start);
          case KMessage(_) => end := WriteKidToArray(0, target, start);
        }
      }
    }

    method SerializeWithCachedSizesToArray(target: array<Byte>, start: nat) returns (end: nat)
      requires Ready() && start + |Serialize(schema, Abs())| <= target.Length
      modifies target
      ensures var b := old(Serialize(schema, Abs()));
              end == start + |b| && target[..] == Patch(old(target[..]), start, b)
      decreases Repr, 5
    {
      ghost var all, before := Serialize(schema, Abs()), target[..];
      WrittenNothing(all, before, start);
      end := WriteFieldsToArray(target, start, all, before);
      if unknown != [] {
        WrittenNext(SerializeUnknowns(unknown), all, before, start, target[..], end, SerializeUnknowns(unknown), []);
        end := WriteToArray(SerializeUnknowns(unknown), target, end);
      }
      WrittenAll(all, before, start, target[..], end);
    }

    method WriteFieldsToArray(target: array<Byte>, start: nat, ghost all: Bytes, ghost before: Bytes) returns (end: nat)
      requires Ready() && start + |all| <= target.Length && all == Serialize(schema, Abs()) && before == target[..]
      modifies target
      ensures WrittenUpTo(SerializeUnknowns(unknown), all, before, start, target[..], end)
      decreases Repr, 4
    {
      hide WrittenUpTo, FieldsFrom, SerializeSlot, SerializeUnknowns;
      ghost var m := Abs();
      WrittenNothing(all, before, start);
      FieldsFromEnds(schema, m);
      end := start;
      var i := 0;
      while i < |schema.fields|
        invariant 0 <= i <= |schema.fields|
        invariant WrittenUpTo(FieldsFrom(schema, m, i), all, before, start, target[..], end)
      {
        ghost var piece := SerializeSlot(schema.fields[i], i + 1, m.slots[i]);
        FieldsFromStep(schema, m, i);
        WrittenNext(FieldsFrom(schema, m, i), all, before, start, target[..], end, piece, FieldsFrom(schema, m, i + 1));
        end := WriteFieldToArray(i, target, end);
        i := i + 1;
      }
    }

    // ---------------------------------------------------------------- MergePartialFromCodedStream

    /** ReadMessageNoVirtual: a length, then this message up to the limit it sets. */
    method ReadNested(input: CodedInput) returns (ok: bool)
      requires Valid() && OneByteTags(schema) && !input.legit
      modifies Repr, input
      ensures Valid() && fresh(Repr - old(Repr)) && old(Repr) <= Repr
      ensures ok ==> input.depth == old(input.depth) && !input.legit
      ensures var r := ReadMessage(schema, old(Abs()), old(input.rest), old(input.depth));
              var left := MessageLeft(input.debris, schema, old(Abs()), old(input.rest), old(input.depth));
              && Abs() == left.msg
              && if ok then r == GotMsg(Abs(), input.rest) else r == NoMsg && input.rest == left.rest
      decreases |input.rest|, 0
    {
      hide Valid, Abs, Parse, Left;
      var length := 0;
      match ReadVarint32(input.rest) {
        case NoNumber =>
          input.rest := input.debris.afterNumber(input.rest);
          return false;
        case Number(n, rest) =>
          length := n;
          input.rest := rest;
      }
      if input.depth == 0 {
        return false;
      }
      input.depth := input.depth - 1;
      var beyond := input.PushLimit(length);
      ok := MergePartialFromCodedStream(input);
      if !ok || !input.legit {
        return false;
      }
      input.PopLimit(beyond);
      input.depth := input.depth + 1;
    }

    /** A case for a string or a number. */
    method ReadScalar(i: nat, input: CodedInput) returns (ok: bool)
      requires Valid() && i < |schema.fields| && !IsNested(schema.fields[i])
      modifies this`has, this`cells, input`rest
      ensures Valid()
      ensures var t := Store(old(Abs()), i,
                             ReadSlot(schema.fields[i], old(Abs()).slots[i], old(input.rest), input.depth));
              if ok then t == GoOn(Abs(), input.rest) else t == Stop(Failed)
      ensures var left := SlotLeft(input.debris, schema.fields[i], old(Abs()).slots[i], old(input.rest), input.depth);
              !ok ==> Leaving(Abs(), input.rest) == PutLeft(old(Abs()), i, left)
    {
      hide Valid, Abs, ReadBytes, ReadVarint32;
      SlotsAre(i);
      if schema.fields[i].KBytes? {
        MutableBytes(i);
        SetIsThere(i);
        SlotsAre(i);
        match ReadBytes(input.rest) {
          case NoBytes =>
            SetBytes(i, input.debris.text(cells[i].str.text, input.rest));
            input.rest := input.debris.afterText(input.rest);
            return false;
          case GotBytes(b, rest) =>
            SetBytes(i, b);
            input.rest := rest;
        }
      } else {
        match ReadVarint32(input.rest) {
          case NoNumber =>
            input.rest := input.debris.afterNumber(input.rest);
            return false;
          case Number(v, rest) =>
            SetUint(i, v);
            input.rest := rest;
        }
      }
      ok := true;
    }

    /** The case for the optional nested message. */
    method ReadOptional(input: CodedInput) returns (ok: bool)
      requires Valid() && OneByteTags(schema) && !input.legit && At() < |schema.fields| && schema.fields[At()].KMessage?
      modifies Repr, input
      ensures Valid() && fresh(Repr - old(Repr)) && old(Repr) <= Repr
      ensures ok ==> input.depth == old(input.depth) && !input.legit
      ensures var k, sub, slot := schema.fields[At()], schema.fields[At()].sub, old(Abs()).slots[At()];
              var r := ReadMessage(sub, Target(sub, slot), old(input.rest), old(input.depth));
              var left := SlotLeft(input.debris, k, slot, old(input.rest), old(input.depth));
              if ok then r.GotMsg? && r.rest == input.rest && Abs() == Put(old(Abs()), At(), MessageSlot(r.msg))
              else r == NoMsg && Leaving(Abs(), input.rest) == PutLeft(old(Abs()), At(), left)
      decreases |input.rest|, 1
    {
      hide Valid, KidsValid, Abs, Put, Target, ReadMessage, MessageLeft, NestedIndex;
      assert OneByteKind(schema.fields[At()]);
      var kid := MutableKid();
      ok := kid.ReadNested(input);
      Repr := Repr + kid.Repr;
      SoleKid();
    }

    /** The case for the repeated nested message. */
    method ReadElement(input: CodedInput) returns (ok: bool)
      requires Valid() && OneByteTags(schema) && !input.legit && At() < |schema.fields|
      requires schema.fields[At()].KRepeated?
      modifies Repr, input
      ensures Valid() && fresh(Repr - old(Repr)) && old(Repr) <= Repr
      ensures ok ==> input.depth == old(input.depth) && !input.legit
      ensures var k, sub, slot := schema.fields[At()], schema.fields[At()].sub, old(Abs()).slots[At()];
              var r := ReadMessage(sub, Default(sub), old(input.rest), old(input.depth));
              var left := SlotLeft(input.debris, k, slot, old(input.rest), old(input.depth));
              if ok then
                && r.GotMsg? && r.rest == input.rest
                && Abs() == Put(old(Abs()), At(), ListSlot(Items(old(Abs()).slots[At()]) + [r.msg]))
              else r == NoMsg && Leaving(Abs(), input.rest) == PutLeft(old(Abs()), At(), left)
      decreases |input.rest|, 1
    {
      hide Valid, KidsValid, Abs, Put, Default, Items, ReadMessage, MessageLeft, NestedIndex;
      assert OneByteKind(schema.fields[At()]);
      var kid := new GeneratedMessage(schema.fields[At()].sub);
      ok := kid.ReadNested(input);
      AppendKid(kid);
    }

    /** The body of a case: reads the value of field `i`. */
    method ReadKnown(i: nat, input: CodedInput) returns (ok: bool)
      requires Valid() && OneByteTags(schema) && !input.legit && i < |schema.fields|
      modifies Repr, input
      ensures Valid() && fresh(Repr - old(Repr)) && old(Repr) <= Repr
      ensures ok ==> input.depth == old(input.depth) && !input.legit
      ensures var t := Store(old(Abs()), i,
                             ReadSlot(schema.fields[i], old(Abs()).slots[i], old(input.rest), old(input.depth)));
              if ok then t == GoOn(Abs(), input.rest) else t == Stop(Failed)
      ensures var k, slot := schema.fields[i], old(Abs()).slots[i];
              var left := SlotLeft(input.debris, k, slot, old(input.rest), old(input.depth));
              !ok ==> Leaving(Abs(), input.rest) == PutLeft(old(Abs()), i, left)
      decreases |input.rest|, 2
    {
      if schema.fields[i].KMessage? {
        ok := ReadOptional(input);
      } else if schema.fields[i].KRepeated? {
        ok := ReadElement(input);
      } else {
        ok := ReadScalar(i, input);
      }
    }

    /** After field `i`: the tags expected next, the end, or any other tag. */
    method TagAfter(i: nat, input: CodedInput) returns (tag: nat)
      requires OneByteTags(schema) && i < |schema.fields|
      modifies input`rest, input`legit
      ensures input.TagIs(old(input.rest), old(input.legit), tag)
    {
      if old(input.rest) != [] && 0 < old(input.rest)[0] < 128 {
        OneByteTagIsRead(old(input.rest));
      }
      var found := false;
      if schema.fields[i].KRepeated? {
        tag := MakeTag(i + 1, WT_LENGTH);
        found := input.ExpectTag(tag);
        if found {
          return;
        }
      }
      if i + 1 < |schema.fields| {
        tag := MakeTag(i + 2, WireType(schema.fields[i + 1]));
        found := input.ExpectTag(tag);
        if found {
          return;
        }
      } else {
        found := input.ExpectAtEnd();
        if found {
          return 0;
        }
      }
      tag := input.NextTag();
    }

    /** One turn of the loop up to the next tag; `tag` does not end a group. */
    method ReadField(tag: nat, input: CodedInput) returns (ok: bool)
      requires Valid() && OneByteTags(schema) && !input.legit && (Recognised(schema, tag) || tag % 8 != WT_END_GROUP)
      modifies Repr, input
      ensures Valid() && fresh(Repr - old(Repr)) && old(Repr) <= Repr
      ensures ok ==> input.depth == old(input.depth) && !input.legit
      ensures var t := HandleField(schema, old(Abs()), tag, old(input.rest), old(input.depth));
              if ok then t == GoOn(Abs(), input.rest)
              else t == Stop(Failed)
      ensures var left := TurnLeft(input.debris, schema, old(Abs()), tag, old(input.rest), old(input.depth));
              !ok ==> Leaving(Abs(), input.rest) == left
      decreases |input.rest|, 3
    {
      if Recognised(schema, tag) {
        ok := ReadKnown(tag / 8 - 1, input);
      } else {
        match SkipField(tag, input.rest, input.depth) {
          case NoField =>
            AddUnknowns(input.debris.unknown(tag, input.rest, input.depth));
            input.rest := input.debris.afterUnknown(tag, input.rest, input.depth);
            return false;
          case GotField(u, rest) =>
            AddUnknowns([u]);
            input.rest := rest;
        }
        ok := true;
      }
    }

    method MergePartialFromCodedStream(input: CodedInput) returns (ok: bool)
      requires Valid() && OneByteTags(schema) && !input.legit
      modifies Repr, input
      ensures Valid() && fresh(Repr - old(Repr)) && old(Repr) <= Repr
      ensures ok ==> input.depth == old(input.depth)
      ensures var p := Parse(schema, old(Abs()), old(input.rest), old(input.depth));
              if ok then p == Ended(Abs(), input.rest, input.legit) else p == Failed
      ensures Leaving(Abs(), input.rest) == Left(input.debris, schema, old(Abs()), old(input.rest), old(input.depth))
      decreases |input.rest|, 4
    {
      hide Valid, Abs, Parse, Left, LeftOnwards, Onwards, HandleField, TurnLeft;
      ghost var m, depth, before := Abs(), input.depth, input.rest;
      ghost var goal, left := Parse(schema, m, before, depth), Left(input.debris, schema, m, before, depth);
      var tag := input.NextTag();
      ParseByTag(input, before, schema, m, tag, depth);
      while tag != 0
        invariant Valid() && fresh(Repr - old(Repr)) && old(Repr) <= Repr && Abs() == m
        invariant input.depth == depth && |input.rest| <= |old(input.rest)|
        invariant tag != 0 ==> !input.legit && |input.rest| < |old(input.rest)|
        invariant goal == Onwards(schema, m, tag, input.rest, input.legit, depth)
        invariant left == LeftOnwards(input.debris, schema, m, tag, input.rest, depth)
        decreases tag != 0, |input.rest|
      {
        ParseByTurn(input.debris, schema, m, tag, input.rest, depth);
        var known := Recognised(schema, tag);
        if !known && tag % 8 == WT_END_GROUP {
          return true;
        }
        ok := ReadField(tag, input);
        if !ok {
          return;
        }
        m, before := Abs(), input.rest;
        if known {
          tag := TagAfter(tag / 8 - 1, input);
        } else {
          tag := input.NextTag();
        }
        ParseByTag(input, before, schema, m, tag, depth);
      }
      NoMore(input.debris, schema, m, input.rest, input.legit, depth);
      ok := true;
    }

    // ---------------------------------------------------------------- whole messages

    /** SerializeToArray: sizes first, then the bytes into a buffer of that size. */
    method SerializeToString() returns (data: array<Byte>)
      requires Valid() && Writable(schema, Abs()) && OneByteTags(schema)
      requires |Serialize(schema, Abs())| <= INT_MAX
      modifies Repr`cachedSize
      ensures fresh(data) && data[..] == Serialize(schema, Abs()) && Abs() == old(Abs())
    {
      hide Patch, Serialize, Writable, OneByteTags;
      SizeExact(schema, Abs());
      var size := ByteSize();
      ReadySize();
      data := new Byte[size];
      PatchAll(data[..], Serialize(schema, Abs()));
      var end := SerializeWithCachedSizesToArray(data, 0);
    }

    /** ParseFromArray: clears the message, then parses up to the regular end.  What becomes
        of strings beyond the limit of the stream is left open. */
    method ParseFromString(data: Bytes, debris: Debris) returns (ok: bool)
      requires Valid() && OneByteTags(schema)
      modifies Repr
      ensures Valid() && fresh(Repr - old(Repr))
      ensures |data| <= TOTAL_BYTES_LIMIT ==>
                && ParseWhole(schema, data) == (if ok then Some(Abs()) else None)
                && Abs() == Left(debris, schema, Default(schema), data, RECURSION_LIMIT).msg
    {
      Clear();
      var input := new CodedInput(data, debris);
      ok := MergePartialFromCodedStream(input);
      ok := ok && input.legit;
    }

    /** What one side sends the other receives, whatever its message held before. */
    method SendTo(receiver: GeneratedMessage, debris: Debris) returns (ok: bool)
      requires Valid() && Encodable(schema, Abs(), RECURSION_LIMIT) && OneByteTags(schema)
      requires |Serialize(schema, Abs())| <= TOTAL_BYTES_LIMIT
      requires receiver.Valid() && receiver.schema == schema && receiver.Repr !! Repr
      modifies Repr`cachedSize, receiver.Repr
      ensures receiver.Valid() && Abs() == old(Abs())
      ensures ok && receiver.Abs() == old(Abs())
    {
      hide Valid, Abs, Encodable, Writable, Serialize, OneByteTags, ParseWhole, Left;
      EncodableIsWritable(schema, Abs(), RECURSION_LIMIT);
      var data := SerializeToString();
      SerializeThenParse(schema, Abs());
      ok := receiver.ParseFromString(data[..], debris);
    }
  }

  /** The four messages are instances: one nested field at most, one-byte tags. */
  lemma MessagesAreInstances()
    ensures Supported(UserInfo) && OneByteTags(UserInfo)
    ensures Supported(RoomInfo) && OneByteTags(RoomInfo)
    ensures Supported(GetRoomInfoRsp) && OneByteTags(GetRoomInfoRsp)
    ensures Supported(GetRoomListRsp) && OneByteTags(GetRoomListRsp)
  {
    NestedAtEnd(UserInfo, 7);
    assert OneByteTags(UserInfo) && Supported(UserInfo);
    NestedAtEnd(RoomInfo, 3);
    assert OneByteTags(RoomInfo) && Supported(RoomInfo);
    NestedAtEnd(GetRoomInfoRsp, 1);
    assert OneByteTags(GetRoomInfoRsp) && Supported(GetRoomInfoRsp);
    NestedAtEnd(GetRoomListRsp, 1);
  }

  lemma NestedAtEnd(sc: Schema, n: nat)
    requires n <= |sc.fields| && forall i :: 0 <= i < |sc.fields| ==> (IsNested(sc.fields[i]) <==> i == n)
    ensures NestedIndex(sc.fields) == n && AtMostOneNested(sc)
  {
    NestedIs(sc.fields, n);
  }

  lemma {:induction false} NestedIs(ks: seq<Kind>, n: nat)
    requires n <= |ks| && forall i :: 0 <= i < |ks| ==> (IsNested(ks[i]) <==> i == n)
    ensures NestedIndex(ks) == n
  {
    if n > 0 {
      NestedIs(ks[1..], n - 1);
    }
  }

  /** A default message has size 0. */
  lemma {:induction false} DefaultSize(ks: seq<Kind>)
    ensures OptionalSizes(ks, DefaultSlots(ks)) + RepeatedSizes(ks, DefaultSlots(ks)) == 0
  {
    if ks != [] {
      assert DefaultSlots(ks)[1..] == DefaultSlots(ks[1..]);
      DefaultSize(ks[1..]);
    }
  }

  /** Clear, then ByteSize. */
  method ClearedSize(m: GeneratedMessage) returns (size: nat)
    requires m.Valid()
    modifies m.Repr
    ensures m.Valid() && m.Abs() == Default(m.schema) && size == 0
  {
    m.Clear();
    DefaultSize(m.schema.fields);
    size := m.ByteSize();
  }
}
