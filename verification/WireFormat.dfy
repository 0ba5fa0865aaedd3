/** The encoding of the four messages stated in numerals, independently of the readers and
    printers: which bytes are a varint and which number it is, what every wire type is
    followed by, and which tag every field has. */
module WireFormat {
  import opened Wrappers
  import opened Wire
  import opened Message

  // ---------------------------------------------------------------- varints

  /** The top bit of every byte but the last is set. */
  ghost predicate IsVarint(s: Bytes) {
    s != [] && s[|s| - 1] < 128 && forall i :: 0 <= i < |s| - 1 ==> s[i] >= 128
  }

  /** Groups of seven bits, the lowest first. */
  ghost function Groups(s: Bytes): nat {
    if s == [] then 0 else s[0] % 128 + 128 * Groups(s[1..])
  }

  lemma {:induction false} GroupsAreRead(s: Bytes, n: nat, budget: nat)
    requires n <= |s| && n <= budget && IsVarint(s[..n])
    ensures ReadGroups(s, budget) == Number(Groups(s[..n]), s[n..])
    decreases n
  {
    assert s[..n][0] == s[0] && s[..n][1..] == s[1..][..n - 1];
    if n > 1 {
      assert s[..n][0] >= 128;
      assert IsVarint(s[1..][..n - 1]);
      GroupsAreRead(s[1..], n - 1, budget - 1);
      assert s[1..][n - 1..] == s[n..];
    } else {
      assert Groups(s[..n]) == s[0] % 128 + 128 * Groups([]);
    }
  }

  lemma {:induction false} UnfinishedGroups(s: Bytes, budget: nat)
    requires ReadGroups(s, budget).Number?
    ensures exists n :: 0 < n <= |s| && n <= budget && IsVarint(s[..n])
    decreases budget
  {
    if s[0] < 128 {
      assert IsVarint(s[..1]);
    } else {
      UnfinishedGroups(s[1..], budget - 1);
      var n :| 0 < n <= |s[1..]| && n <= budget - 1 && IsVarint(s[1..][..n]);
      assert s[..n + 1] == [s[0]] + s[1..][..n];
      assert IsVarint(s[..n + 1]);
    }
  }

  /** A number is read exactly when a varint ends within ten bytes. */
  lemma NumberIsThere(s: Bytes)
    ensures ReadVarint64(s).Number? <==> exists n :: 0 < n <= |s| && n <= 10 && IsVarint(s[..n])
    ensures ReadVarint32(s).Number? <==> exists n :: 0 < n <= |s| && n <= 10 && IsVarint(s[..n])
  {
    if n :| 0 < n <= |s| && n <= 10 && IsVarint(s[..n]) {
      GroupsAreRead(s, n, 10);
    }
    if ReadVarint64(s).Number? {
      UnfinishedGroups(s, 10);
    }
  }

  /** It is the low 64, or the low 32 bits, whatever the length of the varint. */
  lemma LowBitsAreRead(s: Bytes, n: nat)
    requires 0 < n <= |s| && n <= 10 && IsVarint(s[..n])
    ensures ReadVarint64(s) == Number(Groups(s[..n]) % 0x1_0000_0000_0000_0000, s[n..])
    ensures ReadVarint32(s) == Number(Groups(s[..n]) % 0x1_0000_0000, s[n..])
  {
    GroupsAreRead(s, n, 10);
    LowOfLow(Groups(s[..n]));
  }

  lemma LowOfLow(v: nat)
    ensures v % 0x1_0000_0000_0000_0000 % 0x1_0000_0000 == v % 0x1_0000_0000
  {
    var q, r := v / 0x1_0000_0000_0000_0000, v % 0x1_0000_0000_0000_0000;
    assert v == 0x1_0000_0000 * (0x1_0000_0000 * q + r / 0x1_0000_0000) + r % 0x1_0000_0000;
  }

  /** What is printed is the varint of the number. */
  lemma {:induction false} VarintIsOne(n: nat)
    ensures IsVarint(Varint(n)) && Groups(Varint(n)) == n
  {
    if n < 128 {
      assert Groups([n]) == n % 128 + 128 * Groups([]);
    } else {
      VarintIsOne(n / 128);
      GroupsStep(n % 128, Varint(n / 128));
    }
  }

  lemma GroupsStep(low: nat, s: Bytes)
    requires low < 128 && IsVarint(s)
    ensures IsVarint([128 + low] + s) && Groups([128 + low] + s) == low + 128 * Groups(s)
  {
    assert ([128 + low] + s)[1..] == s;
  }

  // ---------------------------------------------------------------- wire types

  /** However long its varint is, a tag is its number; 0 is none. */
  lemma TagIsNumber(s: Bytes)
    requires ReadVarint32(s).Number?
    ensures var n := ReadVarint32(s); ReadTag(s) == if n.value == 0 then Zero else Tag(n.value, n.rest)
  {
  }

  /** A length beyond the window is refused. */
  lemma DelimitedBytes(s: Bytes)
    ensures ReadBytes(s).GotBytes? <==> ReadVarint32(s).Number? && ReadVarint32(s).value <= |ReadVarint32(s).rest|
    ensures ReadBytes(s).GotBytes? ==>
              var n := ReadVarint32(s);
              ReadBytes(s).bytes == n.rest[..n.value] && ReadBytes(s).rest == n.rest[n.value..]
  {
  }

  /** What follows the tag of a field that is skipped, for every wire type but groups. */
  lemma SkippedByType(number: nat, s: Bytes, depth: nat)
    ensures SkipField(8 * number, s, depth)
         == if ReadVarint64(s).Number? then
              GotField(UVarint(number, ReadVarint64(s).value), ReadVarint64(s).rest)
            else NoField
    ensures SkipField(8 * number + 1, s, depth)
         == if |s| >= 8 then GotField(UFixed64(number, s[..8]), s[8..]) else NoField
    ensures SkipField(8 * number + 2, s, depth)
         == if ReadBytes(s).GotBytes? then GotField(UBytes(number, ReadBytes(s).bytes), ReadBytes(s).rest) else NoField
    ensures SkipField(8 * number + 4, s, depth) == NoField
    ensures SkipField(8 * number + 5, s, depth)
         == if |s| >= 4 then GotField(UFixed32(number, s[..4]), s[4..]) else NoField
    ensures SkipField(8 * number + 6, s, depth) == SkipField(8 * number + 7, s, depth) == NoField
  {
    hide ReadVarint64, ReadBytes, SkipMessage;
  }

  /** A group is kept if it is closed by the tag of its own number, and one may be opened. */
  lemma SkippedGroup(number: nat, other: nat, us: seq<Unknown>, rest: Bytes, depth: nat)
    requires AllStorable(us, depth) && 0 < 8 * other + 4 < 0x1_0000_0000 && 8 * other + 5 < 0x1_0000_0000
    ensures SkipField(8 * number + 3, SerializeUnknowns(us) + (Varint(8 * other + 4) + rest), depth + 1)
         == if other == number then GotField(UGroup(number, us), rest) else NoField
    ensures SkipField(8 * number + 3, SerializeUnknowns(us) + (Varint(8 * other + 4) + rest), 0) == NoField
  {
    hide SkipMessage, SerializeUnknowns, Varint;
    SkipMessageRoundTrip(us, other, depth, rest);
  }

  /** A group without an end is refused. */
  lemma UnclosedGroup(number: nat, depth: nat)
    ensures SkipField(8 * number + 3, [], depth) == NoField
  {
  }

  /** How unknown fields are written. */
  lemma UnknownBytes(u: Unknown)
    ensures SerializeUnknown(u) ==
            match u
            case UVarint(n, v) => Varint(8 * n) + Varint(v)
            case UFixed64(n, f) => Varint(8 * n + 1) + f
            case UBytes(n, b) => Varint(8 * n + 2) + (Varint(|b|) + b)
            case UGroup(n, us) => Varint(8 * n + 3) + (SerializeUnknowns(us) + Varint(8 * n + 4))
            case UFixed32(n, f) => Varint(8 * n + 5) + f
  {
  }
}
