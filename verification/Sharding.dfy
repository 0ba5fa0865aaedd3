/** What the multi-key operations share: the keys are grouped by connection, each group
    is asked for in one request, and every connection answers its request. */
module Sharding {
  import opened Wrappers
  import opened Decimal
  import opened Resp
  import opened Connection
  import opened Cluster
  import opened Redis
  import opened Transactions

  // ---------------------------------------------------------------- grouping

  /** The keys from index `k` on that are placed on connection `i`. */
  ghost function KeysFrom(client: Cluster, keys: seq<string>, k: nat, i: nat): (placed: seq<string>)
    requires client.connections != [] && k <= |keys|
    ensures |placed| <= |keys| - k
    decreases |keys| - k
  {
    if k == |keys| then []
    else (if client.Route(keys[k]) == i then [keys[k]] else []) + KeysFrom(client, keys, k + 1, i)
  }

  /** Their positions. */
  ghost function IndicesFrom(client: Cluster, keys: seq<string>, k: nat, i: nat): (indices: seq<nat>)
    requires client.connections != [] && k <= |keys|
    ensures |indices| == |KeysFrom(client, keys, k, i)|
    ensures forall j :: 0 <= j < |indices| ==>
              indices[j] < |keys| && keys[indices[j]] == KeysFrom(client, keys, k, i)[j]
    decreases |keys| - k
  {
    if k == |keys| then []
    else (if client.Route(keys[k]) == i then [k] else []) + IndicesFrom(client, keys, k + 1, i)
  }

  /** Exactly the keys placed there. */
  lemma {:induction false} KeysFromAre(client: Cluster, keys: seq<string>, k: nat, i: nat)
    requires client.connections != [] && k <= |keys|
    ensures forall key :: key in KeysFrom(client, keys, k, i) <==> key in keys[k..] && client.Route(key) == i
    decreases |keys| - k
  {
    if k < |keys| {
      KeysFromAre(client, keys, k + 1, i);
      assert forall key :: key in keys[k..] <==> key == keys[k] || key in keys[k + 1..];
    }
  }

  lemma KeysPlaced(client: Cluster, keys: seq<string>, i: nat)
    requires client.connections != []
    ensures forall key :: key in KeysFrom(client, keys, 0, i) <==> key in keys && client.Route(key) == i
  {
    KeysFromAre(client, keys, 0, i);
    assert keys[0..] == keys;
  }

  /** No position is lost: each is among those of its connection. */
  lemma {:induction false} IndicesCover(client: Cluster, keys: seq<string>, k: nat, p: nat)
    requires client.connections != [] && k <= p < |keys|
    ensures p in IndicesFrom(client, keys, k, client.Route(keys[p]))
    decreases p - k
  {
    if k < p {
      IndicesCover(client, keys, k + 1, p);
    }
  }

  /** The keys of a request do not exceed those of the caller. */
  lemma {:induction false} KeysFromShort(client: Cluster, keys: seq<string>, k: nat, i: nat)
    requires client.connections != [] && k <= |keys| && forall key <- keys :: |key| < TWO_63
    ensures forall key <- KeysFrom(client, keys, k, i) :: |key| < TWO_63
    decreases |keys| - k
  {
    if k < |keys| {
      KeysFromShort(client, keys, k + 1, i);
    }
  }

  /** What connection `i` has been given so far, and what is still to come. */
  ghost predicate Grouped(client: Cluster, name: string, keys: seq<string>, k: nat, i: nat, args: Args,
                          positions: seq<nat>)
    requires client.connections != [] && k <= |keys|
  {
    && args + KeysFrom(client, keys, k, i) == [name] + KeysFrom(client, keys, 0, i)
    && positions + IndicesFrom(client, keys, k, i) == IndicesFrom(client, keys, 0, i)
  }

  lemma GroupedStep(client: Cluster, name: string, keys: seq<string>, k: nat, i: nat, args: Args, positions: seq<nat>)
    requires client.connections != [] && k < |keys| && Grouped(client, name, keys, k, i, args, positions)
    ensures if client.Route(keys[k]) == i then Grouped(client, name, keys, k + 1, i, args + [keys[k]], positions + [k])
            else Grouped(client, name, keys, k + 1, i, args, positions)
  {
    if client.Route(keys[k]) == i {
      Regroup(args, keys[k], KeysFrom(client, keys, k + 1, i));
      Regroup(positions, k, IndicesFrom(client, keys, k + 1, i));
    } else {
      assert [] + KeysFrom(client, keys, k + 1, i) == KeysFrom(client, keys, k + 1, i);
      assert [] + IndicesFrom(client, keys, k + 1, i) == IndicesFrom(client, keys, k + 1, i);
    }
  }

  lemma GroupedEnds(client: Cluster, name: string, keys: seq<string>, i: nat, args: Args, positions: seq<nat>)
    requires client.connections != []
    ensures Grouped(client, name, keys, 0, i, [name], [])
    ensures Grouped(client, name, keys, |keys|, i, args, positions) ==>
              args == [name] + KeysFrom(client, keys, 0, i) && positions == IndicesFrom(client, keys, 0, i)
  {
    assert args + [] == args && positions + [] == positions;
  }

  lemma Regroup<T>(done: seq<T>, x: T, later: seq<T>)
    ensures done + ([x] + later) == (done + [x]) + later
  {
  }

  function Given(requests: map<nat, Args>, i: nat, name: string): Args {
    if i in requests then requests[i] else [name]
  }

  function PositionsAt(indices: map<nat, seq<nat>>, i: nat): seq<nat> {
    if i in indices then indices[i] else []
  }

  /** Groups the keys by connection, with the position of each. */
  method Group(client: Cluster, name: string, keys: seq<string>)
      returns (requests: map<nat, Args>, indices: map<nat, seq<nat>>)
    requires client.connections != []
    ensures GroupedInto(client, name, keys, requests)
    ensures requests.Keys == indices.Keys
    ensures forall i <- indices :: indices[i] == IndicesFrom(client, keys, 0, i) && indices[i] != []
  {
    hide KeysFrom, IndicesFrom, Grouped;
    requests, indices := map[], map[];
    forall i | 0 <= i < |client.connections|
      ensures Grouped(client, name, keys, 0, i, [name], [])
    {
      GroupedEnds(client, name, keys, i, [], []);
    }
    var k := 0;
    while k < |keys|
      invariant 0 <= k <= |keys|
      invariant requests.Keys == indices.Keys && forall i <- requests :: i < |client.connections| && |requests[i]| >= 2
      invariant forall i :: 0 <= i < |client.connections| ==>
                  Grouped(client, name, keys, k, i, Given(requests, i, name), PositionsAt(indices, i))
    {
      var i := client.Route(keys[k]);
      var args, positions := Given(requests, i, name), PositionsAt(indices, i);
      ghost var requests', indices' := requests, indices;
      requests, indices := requests[i := args + [keys[k]]], indices[i := positions + [k]];
      forall j | 0 <= j < |client.connections|
        ensures Grouped(client, name, keys, k + 1, j, Given(requests, j, name), PositionsAt(indices, j))
      {
        GroupedStep(client, name, keys, k, j, Given(requests', j, name), PositionsAt(indices', j));
      }
      k := k + 1;
    }
    forall i | 0 <= i < |client.connections|
      ensures Given(requests, i, name) == [name] + KeysFrom(client, keys, 0, i)
      ensures PositionsAt(indices, i) == IndicesFrom(client, keys, 0, i)
    {
      GroupedEnds(client, name, keys, i, Given(requests, i, name), PositionsAt(indices, i));
    }
  }

  // ---------------------------------------------------------------- asking

  /** No server is within a transaction. */
  ghost predicate Outside(histories: seq<History>) {
    forall i :: 0 <= i < |histories| ==> !InTransaction(histories[i])
  }

  /** The requests have been executed; the connections in `todo` still hold their answers. */
  ghost predicate Asked(client: Cluster, requests: map<nat, Args>, before: seq<History>, todo: set<nat>)
    reads client.connections
  {
    |before| == |client.connections| && Outside(before) && forall i :: 0 <= i < |client.connections| ==>
      var c := client.connections[i];
      && c.reliable && c.request == ""
      && c.history == (if i in requests then before[i] + [requests[i]] else before[i])
      && c.inbox == (if i in requests && i in todo then PrintReply(c.server(before[i], requests[i])) else "")
  }

  /** What an idle connection becomes when it is sent a request. */
  lemma AnswersWhenIdle(client: Cluster, before: seq<History>, requests: map<nat, Args>)
    requires |before| == |client.connections|
    requires forall i <- requests :: i < |client.connections| && Sendable(requests[i])
    ensures forall i <- requests ::
              After(client.connections[i].server, View(before[i], "", ""), Request(requests[i]))
              == View(before[i] + [requests[i]], "", PrintReply(client.connections[i].server(before[i], requests[i])))
  {
    hide *;
    forall i <- requests
      ensures After(client.connections[i].server, View(before[i], "", ""), Request(requests[i]))
           == View(before[i] + [requests[i]], "", PrintReply(client.connections[i].server(before[i], requests[i])))
    {
      AfterRequest(client.connections[i].server, before[i], requests[i]);
    }
  }

  /** All requests have been sent. */
  twostate lemma HaveAsked(client: Cluster, new requests: map<nat, Args>)
    requires old(client.Ready() && Outside(client.Histories()))
    requires forall i <- requests :: i < |client.connections| && Sendable(requests[i])
    requires client.Sent(old(client.Views()), map i | i in requests :: Request(requests[i]), {})
    ensures Asked(client, requests, old(client.Histories()), requests.Keys)
  {
    hide Request, Sendable, PrintReply, After;
    AnswersWhenIdle(client, old(client.Histories()), requests);
  }

  /** Sends every request before any answer is read. */
  method AskEach(client: Cluster, requests: map<nat, Args>) returns (ok: bool)
    requires client.Valid() && forall i <- requests :: i < |client.connections| && Sendable(requests[i])
    modifies client.connections
    ensures client.Valid()
    ensures old(client.Ready() && Outside(client.Histories())) ==>
              ok && Asked(client, requests, old(client.Histories()), requests.Keys)
  {
    hide *;
    ghost var good := client.Ready() && Outside(client.Histories());
    ok := client.SendEach(map i | i in requests :: Request(requests[i]));
    if good {
      HaveAsked(client, requests);
    }
  }

  /** The answer of connection `i` has been read. */
  twostate lemma AnswerTaken(client: Cluster, new requests: map<nat, Args>, new before: seq<History>,
                             new todo: set<nat>, new i: nat)
    requires old(Asked(client, requests, before, todo)) && i < |client.connections|
    requires forall j :: 0 <= j < |client.connections| ==>
               && client.connections[j].history == old(client.connections[j].history)
               && client.connections[j].request == old(client.connections[j].request)
               && client.connections[j].inbox == if j == i then "" else old(client.connections[j].inbox)
    ensures Asked(client, requests, before, todo - {i})
  {
    hide PrintReply;
  }

  ghost predicate IncreaseFrom(indices: seq<nat>, k: nat) {
    && (forall j :: 0 <= j < |indices| ==> k <= indices[j])
    && forall j, l :: 0 <= j < l < |indices| ==> indices[j] < indices[l]
  }

  lemma IncreaseMore(indices: seq<nat>, k: nat)
    requires IncreaseFrom(indices, k + 1)
    ensures IncreaseFrom(indices, k) && IncreaseFrom([k] + indices, k)
  {
  }

  /** The keys of a connection keep their order. */
  lemma {:induction false} IndicesIncrease(client: Cluster, keys: seq<string>, k: nat, i: nat)
    requires client.connections != [] && k <= |keys|
    ensures IncreaseFrom(IndicesFrom(client, keys, k, i), k)
    decreases |keys| - k
  {
    hide KeysFrom, IncreaseFrom;
    if k < |keys| {
      IndicesIncrease(client, keys, k + 1, i);
      IncreaseMore(IndicesFrom(client, keys, k + 1, i), k);
      assert [] + IndicesFrom(client, keys, k + 1, i) == IndicesFrom(client, keys, k + 1, i);
    } else {
      NoneIncrease(k);
    }
  }

  lemma NoneIncrease(k: nat)
    ensures IncreaseFrom([], k)
  {
  }

  /** Every key is at a position of its own connection. */
  lemma PositionsAre(client: Cluster, keys: seq<string>, i: nat)
    requires client.connections != []
    ensures forall p :: 0 <= p < |keys| ==> (p in IndicesFrom(client, keys, 0, i) <==> client.Route(keys[p]) == i)
  {
    hide KeysFrom, IndicesFrom;
    var positions := IndicesFrom(client, keys, 0, i);
    KeysPlaced(client, keys, i);
    forall p | 0 <= p < |keys|
      ensures p in positions <==> client.Route(keys[p]) == i
    {
      if client.Route(keys[p]) == i {
        IndicesCover(client, keys, 0, p);
      }
    }
  }

  // ---------------------------------------------------------------- the stores behind the connections

  ghost predicate OnRedis(client: Cluster, stores: seq<Contents>) {
    && |stores| == |client.connections|
    && forall i :: 0 <= i < |client.connections| ==> IsRedis(client.connections[i].server, stores[i])
  }

  /** What the unsharded store would hold at `key`, given the histories of the servers. */
  ghost function LookupIn(client: Cluster, stores: seq<Contents>, histories: seq<History>, key: string): Option<Value>
    requires client.connections != [] && |stores| == |client.connections| == |histories|
  {
    Get(stores[client.Route(key)](histories[client.Route(key)]), key)
  }

  ghost function Lookup(client: Cluster, stores: seq<Contents>, key: string): Option<Value>
    reads client.connections
    requires client.connections != [] && |stores| == |client.connections|
  {
    LookupIn(client, stores, client.Histories(), key)
  }

  /** Nothing is under way, no server is within a transaction, and each keeps its store. */
  ghost predicate Serving(client: Cluster, stores: seq<Contents>)
    reads client, client.connections
  {
    client.Ready() && OnRedis(client, stores) && Outside(client.Histories())
  }

  ghost predicate StoreCommands(requests: map<nat, Args>) {
    forall i <- requests :: IsStoreCommand(requests[i])
  }

  /** The store at `key` after the requests. */
  lemma LookupAsked(client: Cluster, stores: seq<Contents>, requests: map<nat, Args>, before: seq<History>, key: string)
    requires client.connections != [] && OnRedis(client, stores) && Asked(client, requests, before, {})
    requires StoreCommands(requests)
    ensures var i := client.Route(key);
            var st := stores[i](before[i]);
            Lookup(client, stores, key) == Get(if i in requests then Execute(st, requests[i]) else st, key)
    ensures Serving(client, stores)
  {
    hide Execute, PrintReply, Correct;
  }

  /** No argument list, and no argument in it, is too long for a request. */
  predicate Short(keys: seq<string>) {
    |keys| < 9_223_372_036_854_775_807 && forall key <- keys :: |key| < 9_223_372_036_854_775_808
  }

  lemma RequestSendable(client: Cluster, name: string, keys: seq<string>, i: nat)
    requires client.connections != [] && Short(keys) && |name| < TWO_63
    ensures Sendable([name] + KeysFrom(client, keys, 0, i))
  {
    KeysFromShort(client, keys, 0, i);
  }

  /** These are the requests that `keys` were grouped into. */
  ghost predicate GroupedInto(client: Cluster, name: string, keys: seq<string>, requests: map<nat, Args>)
    requires client.connections != []
  {
    && (forall i <- requests :: i < |client.connections| && requests[i] == [name] + KeysFrom(client, keys, 0, i))
    && (forall i :: 0 <= i < |client.connections| ==> (i in requests <==> KeysFrom(client, keys, 0, i) != []))
  }

  /** They can be sent, and every key is in one. */
  lemma GroupedRequests(client: Cluster, name: string, keys: seq<string>, requests: map<nat, Args>)
    requires client.connections != [] && Short(keys) && |name| < TWO_63 && GroupedInto(client, name, keys, requests)
    ensures forall i <- requests :: i < |client.connections| && Sendable(requests[i])
    ensures forall key <- keys :: client.Route(key) in requests
  {
    hide Sendable, KeysFrom;
    forall i <- requests
      ensures i < |client.connections| && Sendable(requests[i])
    {
      RequestSendable(client, name, keys, i);
    }
    forall key <- keys
      ensures client.Route(key) in requests
    {
      KeysPlaced(client, keys, client.Route(key));
      assert key in KeysFrom(client, keys, 0, client.Route(key));
    }
  }

  /** Each server with a key has been sent one request: the name and its keys, in order. */
  ghost predicate SentOnce(client: Cluster, before: seq<History>, name: string, keys: seq<string>)
    reads client.connections
    requires client.connections != []
  {
    |before| == |client.connections| && forall i :: 0 <= i < |client.connections| ==>
      var placed := KeysFrom(client, keys, 0, i);
      client.connections[i].history == before[i] + if placed == [] then [] else [[name] + placed]
  }

  lemma GroupsAreSent(client: Cluster, before: seq<History>, name: string, keys: seq<string>,
                      requests: map<nat, Args>)
    requires client.connections != [] && GroupedInto(client, name, keys, requests)
    requires Asked(client, requests, before, {})
    ensures SentOnce(client, before, name, keys)
  {
    hide KeysFrom, PrintReply;
  }

  lemma GroupedAt(client: Cluster, name: string, keys: seq<string>, requests: map<nat, Args>, i: nat)
    requires client.connections != [] && GroupedInto(client, name, keys, requests) && i in requests
    ensures i < |client.connections| && requests[i] == [name] + KeysFrom(client, keys, 0, i)
    ensures KeysFrom(client, keys, 0, i) != []
  {
  }

  /** Reading changes no store. */
  lemma ReadingLeaves(client: Cluster, stores: seq<Contents>, before: seq<History>, name: string, keys: seq<string>,
                      requests: map<nat, Args>)
    requires client.connections != [] && OnRedis(client, stores) && |before| == |client.connections|
    requires Asked(client, requests, before, {}) && GroupedInto(client, name, keys, requests)
    requires name == "MGET" || name == "SINTER" || name == "SUNION"
    ensures Serving(client, stores)
    ensures forall key :: Lookup(client, stores, key) == LookupIn(client, stores, before, key)
  {
    ReadingLeavesAt(client, stores, before, name, keys, requests, "");
    assert |stores| == |client.connections|;
    hide *;
    forall key: string
      ensures Lookup(client, stores, key) == LookupIn(client, stores, before, key)
    {
      ReadingLeavesAt(client, stores, before, name, keys, requests, key);
    }
  }

  lemma ReadingLeavesAt(client: Cluster, stores: seq<Contents>, before: seq<History>, name: string, keys: seq<string>,
                        requests: map<nat, Args>, key: string)
    requires client.connections != [] && OnRedis(client, stores) && |before| == |client.connections|
    requires Asked(client, requests, before, {}) && GroupedInto(client, name, keys, requests)
    requires name == "MGET" || name == "SINTER" || name == "SUNION"
    ensures Serving(client, stores) && Lookup(client, stores, key) == LookupIn(client, stores, before, key)
  {
    hide KeysFrom, Asked, OnRedis, Serving, Lookup;
    LookupAsked(client, stores, requests, before, key);
  }
}
