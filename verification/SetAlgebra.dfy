/** sinter and sunion of a sharded client. */
module SetAlgebra {
  import opened Wrappers
  import opened Decimal
  import opened Resp
  import opened Connection
  import opened Cluster
  import opened Redis
  import opened Transactions
  import opened Sharding

  /** Every server answers its request with a reply that can be read. */
  ghost predicate AnswersReadable(client: Cluster, name: string, keys: seq<string>, histories: seq<History>)
    requires client.connections != [] && |histories| == |client.connections|
  {
    forall i :: 0 <= i < |client.connections| && KeysFrom(client, keys, 0, i) != [] ==>
      WellFormed(client.connections[i].server(histories[i], [name] + KeysFrom(client, keys, 0, i)))
  }

  /** Every key holds a set, or nothing. */
  ghost predicate HoldSets(client: Cluster, stores: seq<Contents>, histories: seq<History>, keys: seq<string>)
    requires client.connections != [] && |stores| == |client.connections| == |histories|
  {
    forall key <- keys :: IsSet(LookupIn(client, stores, histories, key))
  }

  /** What is read from a reply that lists the members of a set. */
  lemma MembersRead(r: Reply, members: set<string>)
    requires WellFormed(r) && Lists(r, members)
    ensures ReadMultiSet(PrintReply(r)) == Members(|members|, members, "")
  {
    hide ReadNumber, ReadBulks, PrintReply;
    ReadArrayPrinted(r.items);
    var texts := TextsOf(r.items);
    forall x: string
      ensures x in texts <==> x in members
    {
      if x in texts {
        var j :| 0 <= j < |texts| && texts[j] == x;
        assert r.items[j] in r.items && r.items[j] == Bulk(Some(x));
      }
      if x in members {
        var j :| 0 <= j < |r.items| && r.items[j] == Bulk(Some(x));
        assert texts[j] == x;
      }
    }
    assert (set t | t in texts) == members;
  }

  lemma ReadArrayPrinted(items: seq<Reply>)
    requires WellFormed(Array(items))
    ensures ReadMultiSet(PrintReply(Array(items))) == Members(|items|, (set t | t in TextsOf(items)), "")
  {
    hide ReadNumber, ReadBulks;
    var body := PrintReplies(items) + "";
    assert PrintReply(Array(items)) == "*" + Print(|items|) + CRLF + body;
    ReadNumberPrinted('*', |items|, body);
    ReadItemsPrinted(items, "");
  }

  // ---------------------------------------------------------------- sinter

  /** `x` is in the sets of all keys placed on these connections. */
  ghost predicate InAll(client: Cluster, stores: seq<Contents>, before: seq<History>, keys: seq<string>,
                        done: set<nat>, x: string)
    requires client.connections != [] && |stores| == |client.connections| == |before|
  {
    forall key <- keys :: client.Route(key) in done ==> x in MembersOf(LookupIn(client, stores, before, key))
  }

  /** What connection `i` answers to its SINTER. */
  lemma InterAnswer(client: Cluster, stores: seq<Contents>, before: seq<History>, keys: seq<string>, i: nat)
      returns (members: set<string>)
    requires client.connections != [] && OnRedis(client, stores) && |before| == |client.connections|
    requires i < |client.connections|
    requires Outside(before)
    requires AnswersReadable(client, "SINTER", keys, before) && HoldSets(client, stores, before, keys)
    requires KeysFrom(client, keys, 0, i) != []
    ensures ReadMultiSet(PrintReply(client.connections[i].server(before[i], ["SINTER"] + KeysFrom(client, keys, 0, i))))
         == Members(|members|, members, "")
    ensures forall x :: x in members <==> InAll(client, stores, before, keys, {i}, x)
  {
    hide KeysFrom, ReadMultiSet, PrintReply, WellFormed, Lists;
    var placed, st := KeysFrom(client, keys, 0, i), stores[i](before[i]);
    KeysPlaced(client, keys, i);
    var args := ["SINTER"] + placed;
    var reply := client.connections[i].server(before[i], args);
    assert args[1..] == placed && Correct(st, args, reply);
    forall key <- placed
      ensures key in keys && LookupIn(client, stores, before, key) == Get(st, key)
    {
    }
    members := Inter(st, placed);
    MembersRead(reply, members);
    assert placed[0] in placed;
    forall x: string
      ensures x in members <==> InAll(client, stores, before, keys, {i}, x)
    {
      if InAll(client, stores, before, keys, {i}, x) {
        assert forall key <- placed :: x in MembersOf(Get(st, key));
      }
    }
  }

  /** `out` is the intersection over the keys placed on the connections that have answered. */
  ghost predicate Intersected(client: Cluster, stores: seq<Contents>, before: seq<History>, keys: seq<string>,
                              done: set<nat>, out: set<string>)
    requires client.connections != [] && |stores| == |client.connections| == |before|
  {
    forall x :: x in out <==> InAll(client, stores, before, keys, done, x)
  }

  lemma IntersectedMore(client: Cluster, stores: seq<Contents>, before: seq<History>, keys: seq<string>,
                        done: set<nat>, i: nat, out: set<string>, members: set<string>)
    requires client.connections != [] && |stores| == |client.connections| == |before|
    requires done == {} || Intersected(client, stores, before, keys, done, out)
    requires forall x :: x in members <==> InAll(client, stores, before, keys, {i}, x)
    ensures Intersected(client, stores, before, keys, done + {i}, if done == {} then members else out * members)
  {
  }

  /** Reads the answer of connection `i` and intersects with it what was read before. */
  method SinterFrom(client: Cluster, i: nat, first: bool, out: set<string>, ghost stores: seq<Contents>,
                    ghost keys: seq<string>, ghost requests: map<nat, Args>, ghost before: seq<History>,
                    ghost todo: set<nat>, ghost done: set<nat>)
      returns (next: set<string>, e: Option<Error>)
    requires client.Valid() && i < |client.connections| && |before| == |client.connections| == |stores| && i in todo
    requires i in requests && requests[i] == ["SINTER"] + KeysFrom(client, keys, 0, i)
    requires KeysFrom(client, keys, 0, i) != []
    requires first <==> done == {}
    modifies client.connections
    ensures client.Valid()
    ensures && old(Asked(client, requests, before, todo)) && OnRedis(client, stores)
            && AnswersReadable(client, "SINTER", keys, before) && HoldSets(client, stores, before, keys)
            && (first || Intersected(client, stores, before, keys, done, out)) ==>
              && e.None? && Asked(client, requests, before, todo - {i})
              && Intersected(client, stores, before, keys, done + {i}, next)
  {
    hide KeysFrom, ReadMultiSet, PrintReply, OnRedis, AnswersReadable, HoldSets, Intersected, InAll;
    next, e := out, None;
    ghost var good := Asked(client, requests, before, todo) && OnRedis(client, stores)
      && AnswersReadable(client, "SINTER", keys, before) && HoldSets(client, stores, before, keys)
      && (first || Intersected(client, stores, before, keys, done, out));
    if good {
      var members := InterAnswer(client, stores, before, keys, i);
      IntersectedMore(client, stores, before, keys, done, i, out, members);
      assert {} + members == members;
    }
    var _, current := client.connections[i].RecvMultiSet({});
    if current.Failure? {
      return out, Some(current.error);
    }
    if good {
      AnswerTaken(client, requests, before, todo, i);
    }
    next := if first then current.value else out * current.value;
  }

  method SinterGather(client: Cluster, keys: seq<string>, requests: map<nat, Args>, before: set<string>,
                      ghost stores: seq<Contents>, ghost histories: seq<History>)
      returns (out: set<string>, e: Option<Error>)
    requires client.Valid() && |stores| == |client.connections| == |histories|
    requires GroupedInto(client, "SINTER", keys, requests)
    modifies client.connections
    ensures client.Valid()
    ensures requests == map[] ==> out == before && e.None?
    ensures && old(Asked(client, requests, histories, requests.Keys)) && OnRedis(client, stores)
            && AnswersReadable(client, "SINTER", keys, histories) && HoldSets(client, stores, histories, keys) ==>
              && e.None? && Asked(client, requests, histories, {})
              && (requests == map[] || Intersected(client, stores, histories, keys, requests.Keys, out))
  {
    hide *;
    out, e := before, None;
    ghost var good := Asked(client, requests, histories, requests.Keys) && OnRedis(client, stores)
      && AnswersReadable(client, "SINTER", keys, histories) && HoldSets(client, stores, histories, keys);
    ghost var done: set<nat> := {};
    var todo := requests.Keys;
    var first := true;
    while todo != {}
      invariant client.Valid() && todo <= requests.Keys && e.None? && done == requests.Keys - todo
      invariant (first <==> done == {})
      invariant first ==> out == before
      invariant good ==> Asked(client, requests, histories, todo)
      invariant good && !first ==> Intersected(client, stores, histories, keys, done, out)
      decreases |todo|
    {
      var i :| i in todo;
      GroupedAt(client, "SINTER", keys, requests, i);
      out, e := SinterFrom(client, i, first, out, stores, keys, requests, histories, todo, done);
      if e.Some? {
        return;
      }
      todo, done, first := todo - {i}, done + {i}, false;
    }
    assert done == requests.Keys;
  }

  /** sinter: `out` is left as it was when there are no keys. */
  method Sinter(client: Cluster, keys: seq<string>, before: set<string>, ghost stores: seq<Contents>)
      returns (count: int, out: set<string>, e: Option<Error>)
    requires client.Valid() && Short(keys) && |stores| == |client.connections|
    modifies client.connections
    ensures client.Valid()
    ensures e.None? ==> count == |out|
    ensures e.None? && keys == [] ==> out == before
    ensures old(Serving(client, stores) && HoldSets(client, stores, client.Histories(), keys)
                && AnswersReadable(client, "SINTER", keys, client.Histories())) ==>
              && e.None? && Serving(client, stores)
              && (keys != [] ==> forall x :: x in out <==>
                  forall key <- keys :: x in MembersOf(old(Lookup(client, stores, key))))
              && (forall key :: Lookup(client, stores, key) == old(Lookup(client, stores, key)))
              && SentOnce(client, old(client.Histories()), "SINTER", keys)
  {
    hide KeysFrom, Asked, Sendable, OnRedis, Get, HoldSets, AnswersReadable, MembersOf, Intersected, GroupedInto,
         SentOnce;
    count, out, e := 0, before, None;
    ghost var histories := client.Histories();
    ghost var good := Serving(client, stores) && HoldSets(client, stores, histories, keys)
      && AnswersReadable(client, "SINTER", keys, histories);
    var requests, _ := Group(client, "SINTER", keys);
    GroupedRequests(client, "SINTER", keys, requests);
    NoGroups(client, "SINTER", keys, requests);
    var sent := AskEach(client, requests);
    if !sent {
      return 0, before, Some(ConnectionError);
    }
    out, e := SinterGather(client, keys, requests, before, stores, histories);
    count := |out|;
    if good {
      ReadingLeaves(client, stores, histories, "SINTER", keys, requests);
      GroupsAreSent(client, histories, "SINTER", keys, requests);
      if keys != [] {
        assert keys[0] in keys && requests != map[];
        InterMeaning(client, stores, histories, keys, requests.Keys, out);
      }
    }
  }

  /** All keys have been taken into account. */
  lemma InterMeaning(client: Cluster, stores: seq<Contents>, before: seq<History>, keys: seq<string>, done: set<nat>,
                     out: set<string>)
    requires client.connections != [] && |stores| == |client.connections| == |before|
    requires Intersected(client, stores, before, keys, done, out) && forall key <- keys :: client.Route(key) in done
    ensures forall x :: x in out <==> forall key <- keys :: x in MembersOf(LookupIn(client, stores, before, key))
  {
  }

  lemma NoGroups(client: Cluster, name: string, keys: seq<string>, requests: map<nat, Args>)
    requires client.connections != [] && GroupedInto(client, name, keys, requests)
    ensures keys == [] ==> requests == map[]
  {
  }

  // ---------------------------------------------------------------- sunion

  /** `x` is in the set of some key placed on one of these connections. */
  ghost predicate InSome(client: Cluster, stores: seq<Contents>, before: seq<History>, keys: seq<string>,
                         done: set<nat>, x: string)
    requires client.connections != [] && |stores| == |client.connections| == |before|
  {
    exists key <- keys :: client.Route(key) in done && x in MembersOf(LookupIn(client, stores, before, key))
  }

  /** What connection `i` answers to its SUNION. */
  lemma UnionAnswer(client: Cluster, stores: seq<Contents>, before: seq<History>, keys: seq<string>, i: nat)
      returns (members: set<string>)
    requires client.connections != [] && OnRedis(client, stores) && |before| == |client.connections|
    requires i < |client.connections|
    requires Outside(before)
    requires AnswersReadable(client, "SUNION", keys, before) && HoldSets(client, stores, before, keys)
    requires KeysFrom(client, keys, 0, i) != []
    ensures ReadMultiSet(PrintReply(client.connections[i].server(before[i], ["SUNION"] + KeysFrom(client, keys, 0, i))))
         == Members(|members|, members, "")
    ensures forall x :: x in members <==> InSome(client, stores, before, keys, {i}, x)
  {
    hide KeysFrom, ReadMultiSet, PrintReply, WellFormed, Lists;
    var placed, st := KeysFrom(client, keys, 0, i), stores[i](before[i]);
    KeysPlaced(client, keys, i);
    var args := ["SUNION"] + placed;
    var reply := client.connections[i].server(before[i], args);
    assert args[1..] == placed && Correct(st, args, reply);
    forall key <- placed
      ensures key in keys && LookupIn(client, stores, before, key) == Get(st, key)
    {
    }
    members := Union(st, placed);
    MembersRead(reply, members);
    forall x: string
      ensures x in members <==> InSome(client, stores, before, keys, {i}, x)
    {
      if InSome(client, stores, before, keys, {i}, x) {
        var key :| key in keys && client.Route(key) == i && x in MembersOf(LookupIn(client, stores, before, key));
        assert key in placed;
      }
    }
  }

  /** `out` has grown by the sets of the keys placed on the connections that have answered. */
  ghost predicate United(client: Cluster, stores: seq<Contents>, before: seq<History>, keys: seq<string>,
                         done: set<nat>, start: set<string>, out: set<string>)
    requires client.connections != [] && |stores| == |client.connections| == |before|
  {
    forall x :: x in out <==> x in start || InSome(client, stores, before, keys, done, x)
  }

  lemma UnitedMore(client: Cluster, stores: seq<Contents>, before: seq<History>, keys: seq<string>, done: set<nat>,
                   i: nat, start: set<string>, out: set<string>, members: set<string>)
    requires client.connections != [] && |stores| == |client.connections| == |before|
    requires United(client, stores, before, keys, done, start, out)
    requires forall x :: x in members <==> InSome(client, stores, before, keys, {i}, x)
    ensures United(client, stores, before, keys, done + {i}, start, out + members)
  {
  }

  lemma UnitedAlone(client: Cluster, stores: seq<Contents>, before: seq<History>, keys: seq<string>, i: nat,
                    members: set<string>)
    requires client.connections != [] && |stores| == |client.connections| == |before|
    requires forall x :: x in members <==> InSome(client, stores, before, keys, {i}, x)
    ensures United(client, stores, before, keys, {i}, {}, members)
  {
  }

  lemma UnitedNone(client: Cluster, stores: seq<Contents>, before: seq<History>, keys: seq<string>, start: set<string>)
    requires client.connections != [] && |stores| == |client.connections| == |before|
    ensures United(client, stores, before, keys, {}, start, start)
  {
  }

  /** All keys have been taken into account. */
  lemma UnionMeaning(client: Cluster, stores: seq<Contents>, before: seq<History>, keys: seq<string>, done: set<nat>,
                     start: set<string>, out: set<string>)
    requires client.connections != [] && |stores| == |client.connections| == |before|
    requires United(client, stores, before, keys, done, start, out) && forall key <- keys :: client.Route(key) in done
    ensures forall x :: x in out <==>
              x in start || exists key <- keys :: x in MembersOf(LookupIn(client, stores, before, key))
  {
  }

  /** Reads the answer of connection `i` into the set that was read before. */
  method SunionFrom(client: Cluster, i: nat, out: set<string>, ghost start: set<string>, ghost stores: seq<Contents>,
                    ghost keys: seq<string>, ghost requests: map<nat, Args>, ghost before: seq<History>,
                    ghost todo: set<nat>, ghost done: set<nat>)
      returns (length: int, next: set<string>, e: Option<Error>)
    requires client.Valid() && i < |client.connections| && |before| == |client.connections| == |stores| && i in todo
    requires i in requests && requests[i] == ["SUNION"] + KeysFrom(client, keys, 0, i)
    requires KeysFrom(client, keys, 0, i) != []
    modifies client.connections
    ensures client.Valid()
    ensures && old(Asked(client, requests, before, todo)) && OnRedis(client, stores)
            && AnswersReadable(client, "SUNION", keys, before) && HoldSets(client, stores, before, keys)
            && United(client, stores, before, keys, done, start, out) ==>
              && e.None? && Asked(client, requests, before, todo - {i})
              && United(client, stores, before, keys, done + {i}, start, next)
              && exists members: set<string> ::
                  United(client, stores, before, keys, {i}, {}, members) && length == |members|
  {
    hide KeysFrom, ReadMultiSet, PrintReply, OnRedis, AnswersReadable, HoldSets, United, InSome;
    length, next, e := 0, out, None;
    ghost var good := Asked(client, requests, before, todo) && OnRedis(client, stores)
      && AnswersReadable(client, "SUNION", keys, before) && HoldSets(client, stores, before, keys)
      && United(client, stores, before, keys, done, start, out);
    if good {
      var members := UnionAnswer(client, stores, before, keys, i);
      UnitedMore(client, stores, before, keys, done, i, start, out, members);
      UnitedAlone(client, stores, before, keys, i, members);
    }
    var n, current := client.connections[i].RecvMultiSet(out);
    if current.Failure? {
      return 0, out, Some(current.error);
    }
    if good {
      AnswerTaken(client, requests, before, todo, i);
    }
    length, next := n, current.value;
  }

  method SunionGather(client: Cluster, keys: seq<string>, requests: map<nat, Args>, start: set<string>,
                      ghost stores: seq<Contents>, ghost histories: seq<History>)
      returns (out: set<string>, e: Option<Error>)
    requires client.Valid() && |stores| == |client.connections| == |histories|
    requires GroupedInto(client, "SUNION", keys, requests)
    modifies client.connections
    ensures client.Valid()
    ensures && old(Asked(client, requests, histories, requests.Keys)) && OnRedis(client, stores)
            && AnswersReadable(client, "SUNION", keys, histories) && HoldSets(client, stores, histories, keys) ==>
              && e.None? && Asked(client, requests, histories, {})
              && United(client, stores, histories, keys, requests.Keys, start, out)
  {
    hide *;
    out, e := start, None;
    ghost var good := Asked(client, requests, histories, requests.Keys) && OnRedis(client, stores)
      && AnswersReadable(client, "SUNION", keys, histories) && HoldSets(client, stores, histories, keys);
    ghost var done: set<nat> := {};
    UnitedNone(client, stores, histories, keys, start);
    var todo := requests.Keys;
    while todo != {}
      invariant client.Valid() && todo <= requests.Keys && e.None? && done == requests.Keys - todo
      invariant good ==> Asked(client, requests, histories, todo)
      invariant good ==> United(client, stores, histories, keys, done, start, out)
      decreases |todo|
    {
      var i :| i in todo;
      GroupedAt(client, "SUNION", keys, requests, i);
      var length;
      length, out, e := SunionFrom(client, i, out, start, stores, keys, requests, histories, todo, done);
      if e.Some? {
        return;
      }
      todo, done := todo - {i}, done + {i};
    }
    assert done == requests.Keys;
  }

  /** get_socket of several keys: -1 when they are not all placed together. */
  method GetSocket(client: Cluster, keys: seq<string>) returns (socket: int)
    requires client.connections != [] && keys != []
    ensures socket == -1 <==> exists key <- keys :: client.Route(key) != client.Route(keys[0])
    ensures socket != -1 ==> forall key <- keys :: client.Route(key) == socket
  {
    if |client.connections| == 1 {
      return 0;
    }
    socket := -1;
    for k := 0 to |keys|
      invariant k > 0 ==> socket == client.Route(keys[0])
      invariant forall j :: 0 <= j < k ==> client.Route(keys[j]) == socket
    {
      var current := client.Route(keys[k]);
      if k > 0 && socket != current {
        assert keys[k] in keys;
        return -1;
      }
      socket := current;
    }
  }

  /** Keys that are placed together are one group. */
  lemma {:induction false} OneGroup(client: Cluster, keys: seq<string>, k: nat, i: nat)
    requires client.connections != [] && k <= |keys| && forall key <- keys :: client.Route(key) == i
    ensures KeysFrom(client, keys, k, i) == keys[k..]
    ensures forall j: nat :: j != i ==> KeysFrom(client, keys, k, j) == []
    decreases |keys| - k
  {
    if k < |keys| {
      OneGroup(client, keys, k + 1, i);
    }
  }

  /** What both ways of asking for a union have in common. */
  ghost predicate CanUnite(client: Cluster, stores: seq<Contents>, keys: seq<string>)
    reads client, client.connections
    requires client.connections != [] && |stores| == |client.connections|
  {
    && Serving(client, stores) && HoldSets(client, stores, client.Histories(), keys)
    && AnswersReadable(client, "SUNION", keys, client.Histories())
  }

  ghost predicate IsUnion(client: Cluster, stores: seq<Contents>, histories: seq<History>, keys: seq<string>,
                          members: set<string>)
    requires client.connections != [] && |stores| == |client.connections| == |histories|
  {
    forall x :: x in members <==> exists key <- keys :: x in MembersOf(LookupIn(client, stores, histories, key))
  }

  /** `n` is the size of the union. */
  ghost predicate CountsUnion(client: Cluster, stores: seq<Contents>, histories: seq<History>, keys: seq<string>,
                              n: int)
    requires client.connections != [] && |stores| == |client.connections| == |histories|
  {
    exists members: set<string> :: IsUnion(client, stores, histories, keys, members) && n == |members|
  }

  /** Every server is asked for the union of its keys. */
  method SunionApart(client: Cluster, keys: seq<string>, start: set<string>, ghost stores: seq<Contents>)
      returns (out: set<string>, e: Option<Error>)
    requires client.Valid() && Short(keys) && |stores| == |client.connections|
    modifies client.connections
    ensures client.Valid()
    ensures old(CanUnite(client, stores, keys)) ==>
              && e.None? && Serving(client, stores)
              && (forall x :: x in out <==>
                  x in start || exists key <- keys :: x in MembersOf(old(Lookup(client, stores, key))))
              && (forall key :: Lookup(client, stores, key) == old(Lookup(client, stores, key)))
              && SentOnce(client, old(client.Histories()), "SUNION", keys)
  {
    hide KeysFrom, Asked, Sendable, OnRedis, Get, HoldSets, AnswersReadable, MembersOf, United, GroupedInto, SentOnce;
    out, e := start, None;
    ghost var histories, good := client.Histories(), CanUnite(client, stores, keys);
    var requests, _ := Group(client, "SUNION", keys);
    GroupedRequests(client, "SUNION", keys, requests);
    var sent := AskEach(client, requests);
    if !sent {
      return start, Some(ConnectionError);
    }
    out, e := SunionGather(client, keys, requests, start, stores, histories);
    if good {
      ReadingLeaves(client, stores, histories, "SUNION", keys, requests);
      GroupsAreSent(client, histories, "SUNION", keys, requests);
      UnionMeaning(client, stores, histories, keys, requests.Keys, start, out);
    }
  }

  /** One server holds all keys and is asked for the whole union. */
  method SunionTogether(client: Cluster, i: nat, keys: seq<string>, start: set<string>, ghost stores: seq<Contents>)
      returns (length: int, out: set<string>, e: Option<Error>)
    requires client.Valid() && Short(keys) && |stores| == |client.connections| && i < |client.connections|
    requires keys != [] && forall key <- keys :: client.Route(key) == i
    modifies client.connections
    ensures client.Valid()
    ensures old(CanUnite(client, stores, keys)) ==>
              && e.None? && Serving(client, stores)
              && (forall x :: x in out <==>
                  x in start || exists key <- keys :: x in MembersOf(old(Lookup(client, stores, key))))
              && (forall key :: Lookup(client, stores, key) == old(Lookup(client, stores, key)))
              && SentOnce(client, old(client.Histories()), "SUNION", keys)
              && CountsUnion(client, stores, old(client.Histories()), keys, length)
  {
    hide KeysFrom, Asked, Sendable, OnRedis, Get, HoldSets, AnswersReadable, MembersOf, United, InSome, IsRedis, Short,
         SentOnce;
    length, out, e := 0, start, None;
    ghost var histories, good := client.Histories(), CanUnite(client, stores, keys);
    OneGroup(client, keys, 0, i);
    assert keys[0..] == keys;
    var requests: map<nat, Args> := map[i := ["SUNION"] + keys];
    GroupedRequests(client, "SUNION", keys, requests);
    var sent := AskEach(client, requests);
    if !sent {
      return 0, start, Some(ConnectionError);
    }
    UnitedNone(client, stores, histories, keys, start);
    length, out, e := SunionFrom(client, i, start, start, stores, keys, requests, histories, requests.Keys, {});
    if good {
      assert requests.Keys - {i} == {} && {} + {i} == {i};
      ReadingLeaves(client, stores, histories, "SUNION", keys, requests);
      GroupsAreSent(client, histories, "SUNION", keys, requests);
      UnionMeaning(client, stores, histories, keys, {i}, start, out);
      var members: set<string> :| United(client, stores, histories, keys, {i}, {}, members) && length == |members|;
      UnionMeaning(client, stores, histories, keys, {i}, {}, members);
      assert IsUnion(client, stores, histories, keys, members);
    }
  }

  /** sunion: `out` grows by the union.  The count is the size of `out` when the keys are
      spread over several servers, and the size of the union when they are not. */
  method Sunion(client: Cluster, keys: seq<string>, start: set<string>, ghost stores: seq<Contents>)
      returns (count: int, out: set<string>, e: Option<Error>)
    requires client.Valid() && Short(keys) && |stores| == |client.connections| && keys != []
    modifies client.connections
    ensures client.Valid()
    ensures old(CanUnite(client, stores, keys)) ==>
              && e.None? && Serving(client, stores)
              && (forall x :: x in out <==>
                  x in start || exists key <- keys :: x in MembersOf(old(Lookup(client, stores, key))))
              && (forall key :: Lookup(client, stores, key) == old(Lookup(client, stores, key)))
              && SentOnce(client, old(client.Histories()), "SUNION", keys)
              && ((exists key <- keys :: client.Route(key) != client.Route(keys[0])) ==> count == |out|)
              && ((forall key <- keys :: client.Route(key) == client.Route(keys[0])) ==>
                    CountsUnion(client, stores, old(client.Histories()), keys, count))
  {
    hide CanUnite, Lookup, MembersOf, SentOnce;
    var socket := GetSocket(client, keys);
    if socket == -1 {
      out, e := SunionApart(client, keys, start, stores);
      count := |out|;
    } else {
      assert keys[0] in keys;
      count, out, e := SunionTogether(client, socket, keys, start, stores);
    }
  }
}
