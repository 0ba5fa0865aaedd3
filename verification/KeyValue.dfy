/** mget, mset and the range del of a sharded client. */
module KeyValue {
  import opened Wrappers
  import opened Decimal
  import opened Resp
  import opened Connection
  import opened Cluster
  import opened Redis
  import opened Transactions
  import opened Sharding

  // ---------------------------------------------------------------- mget

  function TextOrMissing(v: Option<Value>): string {
    if TextIn(v).Some? then TextIn(v).value else MISSING
  }

  /** A key that is not there, or holds no string, is given as the missing value. */
  lemma MissingMarker(v: Option<Value>)
    ensures v.None? || !v.value.TextValue? ==> TextOrMissing(v) == "**nonexistent-key**"
    ensures v.Some? && v.value.TextValue? ==> TextOrMissing(v) == v.value.text
  {
  }

  predicate ShortText(v: Option<Value>) {
    TextIn(v).Some? ==> |TextIn(v).value| < 9_223_372_036_854_775_808
  }

  /** What is read from the answer to an MGET. */
  lemma TextsRead(server: Server, contents: Contents, h: History, keys: seq<string>)
    requires IsRedis(server, contents) && !InTransaction(h) && 0 < |keys| < TWO_63
    requires forall key <- keys :: ShortText(Get(contents(h), key))
    ensures ReadMulti(PrintReply(server(h, ["MGET"] + keys)))
         == Texts(seq(|keys|, j requires 0 <= j < |keys| => TextOrMissing(Get(contents(h), keys[j]))), "")
  {
    hide ReadMulti, PrintReply;
    var st, args := contents(h), ["MGET"] + keys;
    assert Correct(st, args, server(h, args)) && args[1..] == keys;
    var reply := TextsReply(st, keys);
    forall j | 0 <= j < |keys|
      ensures IsBulk(reply.items[j]) && TextOf(reply.items[j]) == TextOrMissing(Get(st, keys[j]))
    {
      assert keys[j] in keys;
    }
    ReadMultiPrinted(reply.items, "");
    assert PrintReply(reply) + "" == PrintReply(reply);
    assert TextsOf(reply.items) == seq(|keys|, j requires 0 <= j < |keys| => TextOrMissing(Get(st, keys[j])));
  }

  /** Puts each text at its position.  More texts than positions would be written past
      the end of the vector of positions; here nothing is written then. */
  method Place(before: seq<string>, positions: seq<nat>, texts: seq<string>, ghost values: seq<string>)
      returns (out: seq<string>, ok: bool)
    requires |values| == |before| && forall j :: 0 <= j < |positions| ==> positions[j] < |before|
    ensures |out| == |before| && ok == (|texts| <= |positions|)
    ensures |texts| == |positions| && (forall j :: 0 <= j < |positions| ==> texts[j] == values[positions[j]]) ==>
              forall p :: 0 <= p < |out| ==> out[p] == if p in positions then values[p] else before[p]
  {
    out, ok := before, |texts| <= |positions|;
    if !ok {
      return;
    }
    var j := 0;
    while j < |texts|
      invariant 0 <= j <= |texts| && |out| == |before|
      invariant |texts| == |positions| && (forall j :: 0 <= j < |positions| ==> texts[j] == values[positions[j]]) ==>
                  forall p :: 0 <= p < |out| ==> out[p] == if p in positions[..j] then values[p] else before[p]
    {
      assert positions[..j + 1] == positions[..j] + [positions[j]];
      out := out[positions[j] := texts[j]];
      j := j + 1;
    }
    assert |texts| == |positions| ==> positions[..j] == positions;
  }

  /** The value of every key, as the unsharded store holds it. */
  ghost function Values(client: Cluster, stores: seq<Contents>, histories: seq<History>,
                        keys: seq<string>): (values: seq<string>)
    requires client.connections != [] && |stores| == |client.connections| == |histories|
    ensures |values| == |keys|
  {
    seq(|keys|, p requires 0 <= p < |keys| => TextOrMissing(LookupIn(client, stores, histories, keys[p])))
  }

  ghost predicate ShortTexts(client: Cluster, stores: seq<Contents>, histories: seq<History>, keys: seq<string>)
    requires client.connections != [] && |stores| == |client.connections| == |histories|
  {
    forall key <- keys :: ShortText(LookupIn(client, stores, histories, key))
  }

  /** The answer of connection `i` holds the values at its positions. */
  lemma AnswerOf(client: Cluster, stores: seq<Contents>, before: seq<History>, keys: seq<string>, i: nat)
    requires client.connections != [] && OnRedis(client, stores) && |before| == |client.connections|
    requires i < |client.connections|
    requires Outside(before)
    requires Short(keys) && ShortTexts(client, stores, before, keys) && KeysFrom(client, keys, 0, i) != []
    ensures var positions := IndicesFrom(client, keys, 0, i);
            var values := Values(client, stores, before, keys);
            var args := ["MGET"] + KeysFrom(client, keys, 0, i);
            var r := ReadMulti(PrintReply(client.connections[i].server(before[i], args)));
            && r.Texts? && r.rest == "" && |r.texts| == |positions|
            && forall j :: 0 <= j < |positions| ==> r.texts[j] == values[positions[j]]
  {
    hide ReadMulti, PrintReply, IsRedis, TextOrMissing, ShortText, KeysFrom, IndicesFrom;
    var placed, positions := KeysFrom(client, keys, 0, i), IndicesFrom(client, keys, 0, i);
    KeysPlaced(client, keys, i);
    forall key <- placed
      ensures ShortText(Get(stores[i](before[i]), key))
    {
      assert key in keys && client.Route(key) == i;
    }
    TextsRead(client.connections[i].server, stores[i], before[i], placed);
    forall j | 0 <= j < |positions|
      ensures client.Route(keys[positions[j]]) == i
    {
      assert placed[j] in placed;
    }
  }

  /** Reads the answer of connection `i` and puts it into place. */
  method MgetFrom(client: Cluster, i: nat, out: seq<string>, positions: seq<nat>, ghost stores: seq<Contents>,
                  ghost keys: seq<string>, ghost requests: map<nat, Args>, ghost before: seq<History>,
                  ghost todo: set<nat>)
      returns (next: seq<string>, e: Option<Error>)
    requires client.Valid() && i < |client.connections| && |out| == |keys|
    requires |before| == |client.connections| == |stores|
    requires positions == IndicesFrom(client, keys, 0, i) && positions != [] && i in todo
    requires i in requests && requests[i] == ["MGET"] + KeysFrom(client, keys, 0, i) && Short(keys)
    modifies client.connections
    ensures client.Valid() && |next| == |keys|
    ensures old(Asked(client, requests, before, todo)) && OnRedis(client, stores)
              && ShortTexts(client, stores, before, keys) ==>
              && e.None? && Asked(client, requests, before, todo - {i})
              && forall p :: 0 <= p < |keys| ==>
                   next[p] == if client.Route(keys[p]) == i then Values(client, stores, before, keys)[p] else out[p]
  {
    hide ReadMulti, PrintReply, OnRedis, Values, KeysFrom, IndicesFrom, ShortTexts, Outside, Connection.Valid,
         Cluster.Route;
    next, e := out, None;
    PositionsAre(client, keys, i);
    ghost var good := Asked(client, requests, before, todo) && OnRedis(client, stores)
        && ShortTexts(client, stores, before, keys);
    if good {
      AnswerOf(client, stores, before, keys, i);
    }
    var texts := client.connections[i].RecvMulti();
    if texts.Failure? {
      return out, Some(texts.error);
    }
    if good {
      AnswerTaken(client, requests, before, todo, i);
    }
    var ok;
    next, ok := Place(out, positions, texts.value, Values(client, stores, before, keys));
    if !ok {
      e := Some(OutOfRange);
    }
  }

  /** Reads the answers, connection by connection. */
  method MgetGather(client: Cluster, keys: seq<string>, requests: map<nat, Args>, indices: map<nat, seq<nat>>,
                    ghost stores: seq<Contents>, ghost before: seq<History>)
      returns (out: seq<string>, e: Option<Error>)
    requires client.Valid() && |stores| == |client.connections| == |before|
    requires GroupedInto(client, "MGET", keys, requests) && Short(keys)
    requires requests.Keys == indices.Keys
    requires forall i <- indices :: indices[i] == IndicesFrom(client, keys, 0, i) && indices[i] != []
    requires forall key <- keys :: client.Route(key) in requests
    modifies client.connections
    ensures client.Valid() && |out| == |keys|
    ensures old(Asked(client, requests, before, requests.Keys)) && OnRedis(client, stores)
              && ShortTexts(client, stores, before, keys) ==>
              e.None? && Asked(client, requests, before, {}) && out == Values(client, stores, before, keys)
  {
    hide *;
    out, e := seq(|keys|, _ => ""), None;
    ghost var values := Values(client, stores, before, keys);
    ghost var good := Asked(client, requests, before, requests.Keys) && OnRedis(client, stores)
        && ShortTexts(client, stores, before, keys);
    var todo := requests.Keys;
    while todo != {}
      invariant client.Valid() && |out| == |keys| && todo <= requests.Keys && e.None?
      invariant good ==> Asked(client, requests, before, todo)
      invariant good ==> forall p :: 0 <= p < |keys| && client.Route(keys[p]) !in todo ==> out[p] == values[p]
      decreases |todo|
    {
      var i :| i in todo;
      GroupedAt(client, "MGET", keys, requests, i);
      out, e := MgetFrom(client, i, out, indices[i], stores, keys, requests, before, todo);
      if e.Some? {
        return;
      }
      todo := todo - {i};
    }
  }

  method Mget(client: Cluster, keys: seq<string>, ghost stores: seq<Contents>)
      returns (out: seq<string>, e: Option<Error>)
    requires client.Valid() && Short(keys) && |stores| == |client.connections|
    modifies client.connections
    ensures client.Valid() && |out| == |keys|
    ensures old(Serving(client, stores) && forall key <- keys :: ShortText(Lookup(client, stores, key))) ==>
              && e.None? && Serving(client, stores)
              && (forall p :: 0 <= p < |keys| ==> out[p] == TextOrMissing(old(Lookup(client, stores, keys[p]))))
              && (forall key :: Lookup(client, stores, key) == old(Lookup(client, stores, key)))
              && SentOnce(client, old(client.Histories()), "MGET", keys)
  {
    hide KeysFrom, Asked, Sendable, OnRedis, Get, TextOrMissing, ShortText, GroupedInto, SentOnce, Connection.Valid,
         Serve;
    ghost var before, good := client.Histories(), Serving(client, stores);
    good := good && ShortTexts(client, stores, before, keys);
    var requests, indices := Group(client, "MGET", keys);
    GroupedRequests(client, "MGET", keys, requests);
    var sent := AskEach(client, requests);
    if !sent {
      return seq(|keys|, _ => ""), Some(ConnectionError);
    }
    out, e := MgetGather(client, keys, requests, indices, stores, before);
    if good {
      ReadingLeaves(client, stores, before, "MGET", keys, requests);
      GroupsAreSent(client, before, "MGET", keys, requests);
    }
  }

  // ---------------------------------------------------------------- del

  lemma {:induction false} SetOfSeq(keys: seq<string>, st: Store)
    ensures |set key | key in keys && key in st| <= |keys|
  {
    var present := set key | key in keys && key in st;
    if keys == [] {
      assert present == {};
    } else {
      SetOfSeq(keys[1..], st);
      var later := set key | key in keys[1..] && key in st;
      assert present <= later + {keys[0]};
      SubsetSize(present, later + {keys[0]});
    }
  }

  lemma {:induction false} SubsetSize(xs: set<string>, ys: set<string>)
    requires xs <= ys
    ensures |xs| <= |ys|
  {
    if xs != {} {
      var x :| x in xs;
      SubsetSize(xs - {x}, ys - {x});
    }
  }

  /** What is read from the answer to a DEL. */
  lemma CountRead(server: Server, contents: Contents, h: History, keys: seq<string>)
    requires IsRedis(server, contents) && !InTransaction(h) && 0 < |keys| < TWO_63
    ensures var r := ReadNumber(':', PrintReply(server(h, ["DEL"] + keys)));
            r.Got? && r.rest == "" && r.value >= 0
                && (r.value > 0 <==> exists key <- keys :: Get(contents(h), key).Some?)
  {
    hide ReadNumber;
    var st, args := contents(h), ["DEL"] + keys;
    assert Correct(st, args, server(h, args)) && args[1..] == keys;
    var present := set key | key in keys && key in st;
    SetOfSeq(keys, st);
    ReadNumberPrinted(':', |present|, "");
    assert PrintReply(Int(|present|)) == ":" + Print(|present|) + CRLF + "";
    if key :| key in keys && Get(st, key).Some? {
      assert key in present;
    }
    if |present| > 0 {
      var key :| key in present;
      assert Get(st, key).Some?;
    }
  }

  /** The keys are gone, and no others. */
  lemma DelLeaves(client: Cluster, stores: seq<Contents>, before: seq<History>, keys: seq<string>,
                  requests: map<nat, Args>)
    requires client.connections != [] && OnRedis(client, stores) && |before| == |client.connections|
    requires Asked(client, requests, before, {})
    requires GroupedInto(client, "DEL", keys, requests)
    ensures Serving(client, stores)
    ensures forall key ::
              Lookup(client, stores, key) == if key in keys then None else LookupIn(client, stores, before, key)
  {
    DelLeavesAt(client, stores, before, keys, requests, "");
    assert |stores| == |client.connections|;
    hide *;
    forall key: string
      ensures Lookup(client, stores, key) == if key in keys then None else LookupIn(client, stores, before, key)
    {
      DelLeavesAt(client, stores, before, keys, requests, key);
    }
  }

  lemma DelLeavesAt(client: Cluster, stores: seq<Contents>, before: seq<History>, keys: seq<string>,
                    requests: map<nat, Args>, key: string)
    requires client.connections != [] && OnRedis(client, stores) && |before| == |client.connections|
    requires Asked(client, requests, before, {})
    requires GroupedInto(client, "DEL", keys, requests)
    ensures Serving(client, stores)
    ensures Lookup(client, stores, key) == if key in keys then None else LookupIn(client, stores, before, key)
  {
    hide KeysFrom, Asked, OnRedis, Serving, Lookup;
    var i := client.Route(key);
    KeysPlaced(client, keys, i);
    LookupAsked(client, stores, requests, before, key);
    if i in requests {
      assert requests[i][1..] == KeysFrom(client, keys, 0, i);
    }
  }

  /** Some key placed on one of these connections existed. */
  ghost predicate Existed(client: Cluster, stores: seq<Contents>, before: seq<History>, keys: seq<string>,
                          done: set<nat>)
    requires client.connections != [] && |stores| == |client.connections| == |before|
  {
    exists key <- keys :: client.Route(key) in done && LookupIn(client, stores, before, key).Some?
  }

  lemma ExistedMore(client: Cluster, stores: seq<Contents>, before: seq<History>, keys: seq<string>, done: set<nat>,
                    i: nat)
    requires client.connections != [] && OnRedis(client, stores) && |before| == |client.connections|
    requires i < |client.connections|
    requires Outside(before)
    requires Short(keys) && KeysFrom(client, keys, 0, i) != []
    ensures var args := ["DEL"] + KeysFrom(client, keys, 0, i);
            var r := ReadNumber(':', PrintReply(client.connections[i].server(before[i], args)));
            && r.Got? && r.rest == "" && r.value >= 0
            && (Existed(client, stores, before, keys, done + {i}) <==>
                Existed(client, stores, before, keys, done) || r.value > 0)
  {
    hide KeysFrom, ReadNumber, PrintReply, IsRedis;
    var placed := KeysFrom(client, keys, 0, i);
    KeysPlaced(client, keys, i);
    CountRead(client.connections[i].server, stores[i], before[i], placed);
    if key :| key in placed && Get(stores[i](before[i]), key).Some? {
      assert key in keys && LookupIn(client, stores, before, key).Some?;
    }
  }

  /** Reads the answer of connection `i`. */
  method DelFrom(client: Cluster, i: nat, ghost stores: seq<Contents>, ghost keys: seq<string>,
                 ghost requests: map<nat, Args>, ghost before: seq<History>, ghost todo: set<nat>,
                 ghost done: set<nat>)
      returns (n: int, e: Option<Error>)
    requires client.Valid() && i < |client.connections| && |before| == |client.connections| == |stores| && i in todo
    requires i in requests && requests[i] == ["DEL"] + KeysFrom(client, keys, 0, i) && Short(keys)
    requires KeysFrom(client, keys, 0, i) != []
    modifies client.connections
    ensures client.Valid()
    ensures old(Asked(client, requests, before, todo)) && OnRedis(client, stores) ==>
              && e.None? && n >= 0 && Asked(client, requests, before, todo - {i})
              && (Existed(client, stores, before, keys, done + {i}) <==>
                  Existed(client, stores, before, keys, done) || n > 0)
  {
    hide KeysFrom, ReadNumber, PrintReply, OnRedis, Short, Existed;
    ghost var good := Asked(client, requests, before, todo) && OnRedis(client, stores);
    if good {
      ExistedMore(client, stores, before, keys, done, i);
    }
    var r := client.connections[i].RecvInt();
    if r.Failure? {
      return 0, Some(r.error);
    }
    if good {
      AnswerTaken(client, requests, before, todo, i);
    }
    n, e := r.value, None;
  }

  method DelGather(client: Cluster, keys: seq<string>, requests: map<nat, Args>, ghost stores: seq<Contents>,
                   ghost before: seq<History>)
      returns (count: int, e: Option<Error>)
    requires client.Valid() && |stores| == |client.connections| == |before|
    requires GroupedInto(client, "DEL", keys, requests) && Short(keys)
    modifies client.connections
    ensures client.Valid()
    ensures old(Asked(client, requests, before, requests.Keys)) && OnRedis(client, stores) ==>
              && e.None? && Asked(client, requests, before, {}) && count >= 0
              && (count > 0 <==> Existed(client, stores, before, keys, requests.Keys))
  {
    hide *;
    count, e := 0, None;
    ghost var good := Asked(client, requests, before, requests.Keys) && OnRedis(client, stores);
    ghost var done: set<nat> := {};
    NoneExisted(client, stores, before, keys);
    var todo := requests.Keys;
    while todo != {}
      invariant client.Valid() && todo <= requests.Keys && e.None? && done == requests.Keys - todo
      invariant good ==> Asked(client, requests, before, todo)
      invariant good ==> count >= 0 && (count > 0 <==> Existed(client, stores, before, keys, done))
      decreases |todo|
    {
      var i :| i in todo;
      GroupedAt(client, "DEL", keys, requests, i);
      var n;
      n, e := DelFrom(client, i, stores, keys, requests, before, todo, done);
      if e.Some? {
        return;
      }
      count := count + n;
      todo, done := todo - {i}, done + {i};
    }
    assert done == requests.Keys;
  }

  lemma NoneExisted(client: Cluster, stores: seq<Contents>, before: seq<History>, keys: seq<string>)
    requires client.connections != [] && |stores| == |client.connections| == |before|
    ensures !Existed(client, stores, before, keys, {})
  {
  }

  /** del(begin, end): whether any of the keys was there. */
  method Del(client: Cluster, keys: seq<string>, ghost stores: seq<Contents>) returns (existed: bool, e: Option<Error>)
    requires client.Valid() && Short(keys) && |stores| == |client.connections|
    modifies client.connections
    ensures client.Valid()
    ensures old(Serving(client, stores)) ==>
              && e.None? && Serving(client, stores)
              && (existed <==> exists key <- keys :: old(Lookup(client, stores, key)).Some?)
              && (forall key ::
                    Lookup(client, stores, key) == if key in keys then None else old(Lookup(client, stores, key)))
              && SentOnce(client, old(client.Histories()), "DEL", keys)
  {
    hide KeysFrom, Asked, Sendable, OnRedis, Get, GroupedInto, SentOnce;
    ghost var before, good := client.Histories(), Serving(client, stores);
    var requests, _ := Group(client, "DEL", keys);
    GroupedRequests(client, "DEL", keys, requests);
    var sent := AskEach(client, requests);
    if !sent {
      return false, Some(ConnectionError);
    }
    var count;
    count, e := DelGather(client, keys, requests, stores, before);
    existed := count != 0;
    if good {
      DelLeaves(client, stores, before, keys, requests);
      GroupsAreSent(client, before, "DEL", keys, requests);
    }
  }

  // ---------------------------------------------------------------- mset

  datatype Pair = Pair(key: string, value: string)

  /** The keys and values, from index `k` on, that are placed on connection `i`. */
  ghost function FlatFrom(client: Cluster, pairs: seq<Pair>, k: nat, i: nat): (flat: seq<string>)
    requires client.connections != [] && k <= |pairs|
    ensures |flat| % 2 == 0 && |flat| <= 2 * (|pairs| - k)
    ensures flat == [] <==> forall j :: k <= j < |pairs| ==> client.Route(pairs[j].key) != i
    decreases |pairs| - k
  {
    if k == |pairs| then []
    else if client.Route(pairs[k].key) == i then [pairs[k].key, pairs[k].value] + FlatFrom(client, pairs, k + 1, i)
    else FlatFrom(client, pairs, k + 1, i)
  }

  /** Each server with a key has been sent one MSET of its pairs, in order. */
  ghost predicate PairsSent(client: Cluster, before: seq<History>, pairs: seq<Pair>)
    reads client.connections
    requires client.connections != []
  {
    |before| == |client.connections| && forall i :: 0 <= i < |client.connections| ==>
      var flat := FlatFrom(client, pairs, 0, i);
      client.connections[i].history == before[i] + if flat == [] then [] else [["MSET"] + flat]
  }

  lemma PairsAreSent(client: Cluster, before: seq<History>, pairs: seq<Pair>, requests: map<nat, Args>)
    requires client.connections != [] && PairedInto(client, pairs, requests) && Asked(client, requests, before, {})
    ensures PairsSent(client, before, pairs)
  {
    hide FlatFrom, PrintReply;
  }

  /** The value that the last of these pairs gives to `key`. */
  ghost function LastFrom(pairs: seq<Pair>, k: nat, key: string): (v: Option<string>)
    requires k <= |pairs|
    ensures v.Some? ==> exists j :: k <= j < |pairs| && pairs[j] == Pair(key, v.value)
                                    && forall later :: j < later < |pairs| ==> pairs[later].key != key
    ensures v.None? ==> forall j :: k <= j < |pairs| ==> pairs[j].key != key
    decreases |pairs| - k
  {
    if k == |pairs| then None
    else if LastFrom(pairs, k + 1, key).Some? then LastFrom(pairs, k + 1, key)
    else if pairs[k].key == key then Some(pairs[k].value)
    else None
  }

  function Stored(v: Option<string>, otherwise: Option<Value>): Option<Value> {
    if v.Some? then Some(TextValue(v.value)) else otherwise
  }

  /** Setting the pairs of one connection sets each of its keys to its last value. */
  lemma {:induction false} SetPairsKeepsLast(client: Cluster, pairs: seq<Pair>, k: nat, i: nat, st: Store, key: string)
    requires client.connections != [] && k <= |pairs| && client.Route(key) == i
    ensures Get(SetPairs(st, FlatFrom(client, pairs, k, i)), key) == Stored(LastFrom(pairs, k, key), Get(st, key))
    decreases |pairs| - k
  {
    if k < |pairs| {
      var flat := FlatFrom(client, pairs, k, i);
      if client.Route(pairs[k].key) == i {
        assert flat[2..] == FlatFrom(client, pairs, k + 1, i);
        SetPairsKeepsLast(client, pairs, k + 1, i, st[pairs[k].key := TextValue(pairs[k].value)], key);
      } else {
        SetPairsKeepsLast(client, pairs, k + 1, i, st, key);
      }
    }
  }

  predicate ShortPairs(pairs: seq<Pair>) {
    && 2 * |pairs| + 1 < 9_223_372_036_854_775_808
    && forall pair <- pairs :: |pair.key| < 9_223_372_036_854_775_808 && |pair.value| < 9_223_372_036_854_775_808
  }

  lemma {:induction false} FlatShort(client: Cluster, pairs: seq<Pair>, k: nat, i: nat)
    requires client.connections != [] && k <= |pairs| && ShortPairs(pairs)
    ensures forall text <- FlatFrom(client, pairs, k, i) :: |text| < TWO_63
    decreases |pairs| - k
  {
    if k < |pairs| {
      FlatShort(client, pairs, k + 1, i);
    }
  }

  /** These are the requests that `pairs` were grouped into. */
  ghost predicate PairedInto(client: Cluster, pairs: seq<Pair>, requests: map<nat, Args>)
    requires client.connections != []
  {
    && (forall i <- requests :: i < |client.connections| && requests[i] == ["MSET"] + FlatFrom(client, pairs, 0, i))
    && (forall i :: 0 <= i < |client.connections| ==> (i in requests <==> FlatFrom(client, pairs, 0, i) != []))
  }

  lemma PairedRequests(client: Cluster, pairs: seq<Pair>, requests: map<nat, Args>)
    requires client.connections != [] && ShortPairs(pairs) && PairedInto(client, pairs, requests)
    ensures forall i <- requests :: i < |client.connections| && Sendable(requests[i])
  {
    forall i <- requests
      ensures i < |client.connections| && Sendable(requests[i])
    {
      FlatShort(client, pairs, 0, i);
    }
  }

  lemma FlatStep(args: Args, pair: Pair, later: seq<string>)
    ensures args + ([pair.key, pair.value] + later) == (args + [pair.key, pair.value]) + later
  {
  }

  method GroupPairs(client: Cluster, pairs: seq<Pair>) returns (requests: map<nat, Args>)
    requires client.connections != []
    ensures PairedInto(client, pairs, requests)
  {
    hide FlatFrom;
    requests := map[];
    var k := 0;
    while k < |pairs|
      invariant 0 <= k <= |pairs|
      invariant forall i <- requests :: i < |client.connections| && |requests[i]| >= 2
      invariant forall i :: 0 <= i < |client.connections| ==>
                  Given(requests, i, "MSET") + FlatFrom(client, pairs, k, i) == ["MSET"] + FlatFrom(client, pairs, 0, i)
    {
      var i := client.Route(pairs[k].key);
      var args := Given(requests, i, "MSET");
      FlatStep(args, pairs[k], FlatFrom(client, pairs, k + 1, i));
      ghost var requests' := requests;
      requests := requests[i := args + [pairs[k].key, pairs[k].value]];
      forall j | 0 <= j < |client.connections|
        ensures Given(requests, j, "MSET") + FlatFrom(client, pairs, k + 1, j)
                  == ["MSET"] + FlatFrom(client, pairs, 0, j)
      {
        FlatNext(client, pairs, k, j);
        assert j != i ==> Given(requests, j, "MSET") == Given(requests', j, "MSET");
      }
      k := k + 1;
    }
    forall i | 0 <= i < |client.connections|
      ensures Given(requests, i, "MSET") == ["MSET"] + FlatFrom(client, pairs, 0, i)
    {
      FlatEnds(client, pairs, i);
      assert Given(requests, i, "MSET") + [] == Given(requests, i, "MSET");
    }
  }

  lemma FlatNext(client: Cluster, pairs: seq<Pair>, k: nat, i: nat)
    requires client.connections != [] && k < |pairs|
    ensures FlatFrom(client, pairs, k, i)
         == if client.Route(pairs[k].key) == i then [pairs[k].key, pairs[k].value] + FlatFrom(client, pairs, k + 1, i)
            else FlatFrom(client, pairs, k + 1, i)
  {
  }

  lemma FlatEnds(client: Cluster, pairs: seq<Pair>, i: nat)
    requires client.connections != []
    ensures FlatFrom(client, pairs, |pairs|, i) == []
  {
  }

  lemma SetAnswered(server: Server, contents: Contents, h: History, flat: seq<string>)
    requires IsRedis(server, contents) && !InTransaction(h) && |flat| % 2 == 0 && flat != []
    ensures PrintReply(server(h, ["MSET"] + flat)) == PrintReply(Status("OK")) + ""
  {
  }

  /** Every key holds the last value it was given, and no other key has changed. */
  lemma MsetLeaves(client: Cluster, stores: seq<Contents>, before: seq<History>, pairs: seq<Pair>,
                   requests: map<nat, Args>)
    requires client.connections != [] && OnRedis(client, stores) && |before| == |client.connections|
    requires Asked(client, requests, before, {})
    requires PairedInto(client, pairs, requests)
    ensures Serving(client, stores)
    ensures forall key :: Lookup(client, stores, key)
              == Stored(LastFrom(pairs, 0, key), LookupIn(client, stores, before, key))
  {
    MsetLeavesAt(client, stores, before, pairs, requests, "");
    assert |stores| == |client.connections|;
    hide *;
    forall key: string
      ensures Lookup(client, stores, key) == Stored(LastFrom(pairs, 0, key), LookupIn(client, stores, before, key))
    {
      MsetLeavesAt(client, stores, before, pairs, requests, key);
    }
  }

  lemma MsetLeavesAt(client: Cluster, stores: seq<Contents>, before: seq<History>, pairs: seq<Pair>,
                     requests: map<nat, Args>, key: string)
    requires client.connections != [] && OnRedis(client, stores) && |before| == |client.connections|
    requires Asked(client, requests, before, {})
    requires PairedInto(client, pairs, requests)
    ensures Serving(client, stores)
    ensures Lookup(client, stores, key) == Stored(LastFrom(pairs, 0, key), LookupIn(client, stores, before, key))
  {
    hide FlatFrom, SetPairs, LastFrom, Asked, Lookup, Get, Execute, Serving;
    var i := client.Route(key);
    var st, flat := stores[i](before[i]), FlatFrom(client, pairs, 0, i);
    LookupAsked(client, stores, requests, before, key);
    SetPairsKeepsLast(client, pairs, 0, i, st, key);
    if i in requests {
      ExecuteMset(st, flat);
    } else {
      NothingSet(st);
    }
  }

  lemma ExecuteMset(st: Store, flat: seq<string>)
    requires |flat| % 2 == 0 && flat != []
    ensures Execute(st, ["MSET"] + flat) == SetPairs(st, flat)
  {
    assert (["MSET"] + flat)[1..] == flat;
  }

  lemma NothingSet(st: Store)
    ensures SetPairs(st, []) == st
  {
  }

  method MsetFrom(client: Cluster, i: nat, ghost stores: seq<Contents>, ghost pairs: seq<Pair>,
                  ghost requests: map<nat, Args>, ghost before: seq<History>, ghost todo: set<nat>)
      returns (e: Option<Error>)
    requires client.Valid() && i < |client.connections| && |before| == |client.connections| == |stores| && i in todo
    requires PairedInto(client, pairs, requests) && i in requests
    modifies client.connections
    ensures client.Valid()
    ensures old(Asked(client, requests, before, todo)) && OnRedis(client, stores) ==>
              e.None? && Asked(client, requests, before, todo - {i})
  {
    hide FlatFrom, PrintReply, IsRedis;
    ghost var good := Asked(client, requests, before, todo) && OnRedis(client, stores);
    if good {
      SetAnswered(client.connections[i].server, stores[i], before[i], FlatFrom(client, pairs, 0, i));
    }
    e := RecvOk(client.connections[i], "");
    if good {
      AnswerTaken(client, requests, before, todo, i);
    }
  }

  /** mset of key-value pairs. */
  method Mset(client: Cluster, pairs: seq<Pair>, ghost stores: seq<Contents>) returns (e: Option<Error>)
    requires client.Valid() && ShortPairs(pairs) && |stores| == |client.connections|
    modifies client.connections
    ensures client.Valid()
    ensures old(Serving(client, stores)) ==>
              && e.None? && Serving(client, stores)
              && forall key :: Lookup(client, stores, key)
                  == Stored(LastFrom(pairs, 0, key), old(Lookup(client, stores, key)))
    ensures old(Serving(client, stores)) ==> PairsSent(client, old(client.Histories()), pairs)
  {
    hide FlatFrom, Asked, Sendable, OnRedis, Get, PairedInto, PairsSent, LastFrom, Stored, ShortPairs;
    e := None;
    ghost var before, good := client.Histories(), Serving(client, stores);
    var requests := GroupPairs(client, pairs);
    PairedRequests(client, pairs, requests);
    var sent := AskEach(client, requests);
    if !sent {
      return Some(ConnectionError);
    }
    var todo := requests.Keys;
    while todo != {}
      invariant client.Valid() && todo <= requests.Keys && e.None?
      invariant good ==> Asked(client, requests, before, todo)
      decreases |todo|
    {
      var i :| i in todo;
      e := MsetFrom(client, i, stores, pairs, requests, before, todo);
      if e.Some? {
        return;
      }
      todo := todo - {i};
    }
    if good {
      MsetLeaves(client, stores, before, pairs, requests);
      PairsAreSent(client, before, pairs, requests);
    }
  }

  /** What mset stored, mget reads back: the last value of every key. */
  method SetThenGet(client: Cluster, pairs: seq<Pair>, keys: seq<string>, ghost stores: seq<Contents>)
      returns (out: seq<string>, e: Option<Error>)
    requires client.Valid() && ShortPairs(pairs) && Short(keys) && |stores| == |client.connections|
    modifies client.connections
    ensures client.Valid()
    ensures old(Serving(client, stores) && forall key <- keys :: ShortText(Lookup(client, stores, key))) ==>
              && e.None? && Serving(client, stores) && |out| == |keys|
              && forall p :: 0 <= p < |keys| ==>
                   out[p] == TextOrMissing(Stored(LastFrom(pairs, 0, keys[p]), old(Lookup(client, stores, keys[p]))))
  {
    hide OnRedis, Lookup, Connection.Valid, Serve;
    out := [];
    e := Mset(client, pairs, stores);
    if e.Some? {
      return;
    }
    out, e := Mget(client, keys, stores);
  }
}
