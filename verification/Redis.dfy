/** A Redis server as the commands of the multi-key operations see it: a store of
    strings and sets, which other commands may change in any way.  Sets are listed in
    an order of the server's choice. */
module Redis {
  import opened Wrappers
  import opened Resp
  import opened Connection
  import opened Transactions

  datatype Value = TextValue(text: string) | SetValue(members: set<string>) | OtherValue

  type Store = map<string, Value>

  function Get(st: Store, key: string): Option<Value> {
    if key in st then Some(st[key]) else None
  }

  /** Keys and values alternate; a later value for a key wins. */
  function SetPairs(st: Store, flat: seq<string>): Store
    decreases |flat|
  {
    if |flat| < 2 then st else SetPairs(st[flat[0] := TextValue(flat[1])], flat[2..])
  }

  function Execute(st: Store, args: Args): Store {
    if |args| >= 3 && |args| % 2 == 1 && args[0] == "MSET" then SetPairs(st, args[1..])
    else if |args| >= 2 && args[0] == "DEL" then st - set key | key in args[1..]
    else st
  }

  /** What a server holds after the commands it has received. */
  type Contents = History -> Store

  /** The commands of the multi-key operations. */
  predicate IsStoreCommand(args: Args) {
    args != [] && args[0] in {"MGET", "MSET", "DEL", "SINTER", "SUNION"}
  }

  // ---------------------------------------------------------------- replies

  /** The text of a value; only strings have one. */
  function TextIn(v: Option<Value>): Option<string> {
    if v.Some? && v.value.TextValue? then Some(v.value.text) else None
  }

  function TextsReply(st: Store, keys: seq<string>): Reply {
    Array(seq(|keys|, j requires 0 <= j < |keys| => Bulk(TextIn(Get(st, keys[j])))))
  }

  /** A missing key holds the empty set. */
  predicate IsSet(v: Option<Value>) {
    v.None? || v.value.SetValue?
  }

  function MembersOf(v: Option<Value>): set<string> {
    if v.Some? && v.value.SetValue? then v.value.members else {}
  }

  function Inter(st: Store, keys: seq<string>): set<string>
    requires keys != []
  {
    set x | x in MembersOf(Get(st, keys[0])) && forall key <- keys :: x in MembersOf(Get(st, key))
  }

  function Union(st: Store, keys: seq<string>): set<string> {
    set key, x | key in keys && x in MembersOf(Get(st, key)) :: x
  }

  /** The reply lists every member once. */
  ghost predicate Lists(r: Reply, members: set<string>) {
    && r.Array?
    && |r.items| == |members|
    && (forall item <- r.items :: item.Bulk? && item.data.Some?)
    && (forall x :: x in members <==> Bulk(Some(x)) in r.items)
  }

  ghost predicate Correct(st: Store, args: Args, r: Reply) {
    |args| >= 2 ==>
      var keys := args[1..];
      && (args[0] == "MGET" ==> r == TextsReply(st, keys))
      && (args[0] == "MSET" && |keys| % 2 == 0 ==> r == Status("OK"))
      && (args[0] == "DEL" ==> r == Int(|set key | key in keys && key in st|))
      && (args[0] == "SINTER" && (forall key <- keys :: IsSet(Get(st, key))) ==> Lists(r, Inter(st, keys)))
      && (args[0] == "SUNION" && (forall key <- keys :: IsSet(Get(st, key))) ==> Lists(r, Union(st, keys)))
  }

  /** Outside a transaction these commands are executed at once and answered from the
      store; nothing is said of other commands. */
  ghost predicate IsRedis(server: Server, contents: Contents) {
    forall h, args :: !InTransaction(h) && IsStoreCommand(args) ==>
      Correct(contents(h), args, server(h, args)) && contents(h + [args]) == Execute(contents(h), args)
  }

  /** What a store says of a key. */
  lemma ValueOfKey(st: Store, key: string)
    ensures key !in st ==> TextIn(Get(st, key)) == None && MembersOf(Get(st, key)) == {} && IsSet(Get(st, key))
    ensures key in st && st[key].TextValue? ==> TextIn(Get(st, key)) == Some(st[key].text) && !IsSet(Get(st, key))
    ensures key in st && st[key].SetValue? ==>
              TextIn(Get(st, key)) == None && MembersOf(Get(st, key)) == st[key].members && IsSet(Get(st, key))
  {
  }

  /** What is answered to commands of one key, and what they change. */
  lemma AnswersForOneKey(st: Store, key: string, value: string, r: Reply)
    ensures Correct(st, ["MGET", key], r) <==> r == Array([Bulk(TextIn(Get(st, key)))])
    ensures Correct(st, ["MSET", key, value], r) <==> r == Status("OK")
    ensures Correct(st, ["DEL", key], r) <==> r == Int(if key in st then 1 else 0)
  {
    hide Lists, Get, TextIn;
    assert ["MGET", key][1..] == ["DEL", key][1..] == [key];
    assert ["MSET", key, value][1..] == [key, value];
    assert TextsReply(st, [key]).items == [Bulk(TextIn(Get(st, key)))];
    assert (set k | k in [key] && k in st) == if key in st then {key} else {};
  }

  lemma SetsOfOneKey(st: Store, key: string, r: Reply)
    requires IsSet(Get(st, key))
    ensures Correct(st, ["SINTER", key], r) <==> Lists(r, MembersOf(Get(st, key)))
    ensures Correct(st, ["SUNION", key], r) <==> Lists(r, MembersOf(Get(st, key)))
  {
    hide Lists, Get, IsSet, MembersOf;
    assert ["SINTER", key][1..] == ["SUNION", key][1..] == [key];
    assert Inter(st, [key]) == MembersOf(Get(st, key));
    assert Union(st, [key]) == MembersOf(Get(st, key));
  }

  lemma ChangesOfOneKey(st: Store, key: string, value: string)
    ensures Execute(st, ["MSET", key, value]) == st[key := TextValue(value)]
    ensures Execute(st, ["DEL", key]) == st - {key}
  {
    assert ["MSET", key, value][1..] == [key, value] && ["DEL", key][1..] == [key];
    assert (set k | k in [key]) == {key};
    assert SetPairs(st, [key, value]) == SetPairs(st[key := TextValue(value)], []) by {
      assert [key, value][2..] == [];
    }
  }

  // ---------------------------------------------------------------- there are such servers

  ghost function Listed(members: set<string>): (items: seq<Reply>)
    ensures Lists(Array(items), members)
    decreases |members|
  {
    if members == {} then []
    else
      var x :| x in members;
      var items := Listed(members - {x});
      assert forall y :: y in members <==> y == x || y in members - {x};
      assert forall y :: Bulk(Some(y)) in [Bulk(Some(x))] + items <==> y == x || Bulk(Some(y)) in items;
      [Bulk(Some(x))] + items
  }

  /** SET and SADD besides the commands above. */
  function ExecuteMore(st: Store, args: Args): Store {
    if |args| == 3 && args[0] == "SET" then st[args[1] := TextValue(args[2])]
    else if |args| == 3 && args[0] == "SADD" && IsSet(Get(st, args[1])) then
      st[args[1] := SetValue(MembersOf(Get(st, args[1])) + {args[2]})]
    else Execute(st, args)
  }

  function StoreAfter(initial: Store, executed: History): Store {
    if executed == [] then initial
    else ExecuteMore(StoreAfter(initial, executed[..|executed| - 1]), executed[|executed| - 1])
  }

  /** A plain SET and a SADD are remembered. */
  lemma Remembered(initial: Store, executed: History, key: string, value: string)
    ensures var st := StoreAfter(initial, executed);
            && StoreAfter(initial, executed + [["SET", key, value]]) == st[key := TextValue(value)]
            && (IsSet(Get(st, key)) ==>
                  StoreAfter(initial, executed + [["SADD", key, value]])
                  == st[key := SetValue(MembersOf(Get(st, key)) + {value})])
  {
    assert (executed + [["SET", key, value]])[..|executed|] == executed;
    assert (executed + [["SADD", key, value]])[..|executed|] == executed;
  }

  ghost function ModelReply(st: Store, args: Args): Reply {
    if |args| < 2 then Err("ERR wrong number of arguments")
    else
      var keys := args[1..];
      if args[0] == "MGET" then TextsReply(st, keys)
      else if args[0] == "MSET" || args[0] == "SET" then Status("OK")
      else if args[0] == "DEL" then Int(|set key | key in keys && key in st|)
      else if args[0] == "SADD" then Int(if |keys| == 2 && keys[1] !in MembersOf(Get(st, keys[0])) then 1 else 0)
      else if args[0] == "SINTER" then Array(Listed(Inter(st, keys)))
      else if args[0] == "SUNION" then Array(Listed(Union(st, keys)))
      else Err("ERR unknown command")
  }

  /** For every initial store and every choice of refused commands there is one server
      that runs transactions, remembers SET and SADD, and is of this kind. */
  lemma OneServerDoesAll(initial: Store, refusal: Args -> Option<string>)
    requires forall args :: refusal(args).Some? ==> IsLineText(refusal(args).value)
    ensures exists server: Server, b: Behaviour, contents: Contents ::
              && Transacts(server, b) && b.refusal == refusal && IsRedis(server, contents)
              && forall h :: contents(h) == StoreAfter(initial, StateAfter(b, h).executed)
  {
    hide *;
    var base: Server := (executed, args) => ModelReply(StoreAfter(initial, executed), args);
    var b := Behaviour(base, refusal);
    var server: Server := (h, args) => Respond(b, StateAfter(b, h), args);
    var contents: Contents := h => StoreAfter(initial, StateAfter(b, h).executed);
    DoesAll(initial, server, b, contents);
  }

  lemma DoesAll(initial: Store, server: Server, b: Behaviour, contents: Contents)
    requires forall args :: b.refusal(args).Some? ==> IsLineText(b.refusal(args).value)
    requires forall executed, args :: b.base(executed, args) == ModelReply(StoreAfter(initial, executed), args)
    requires forall h, args :: server(h, args) == Respond(b, StateAfter(b, h), args)
    requires forall h :: contents(h) == StoreAfter(initial, StateAfter(b, h).executed)
    ensures Transacts(server, b) && IsRedis(server, contents)
  {
    hide Next, Correct, ModelReply, StoreAfter, Respond, StateAfter, Execute, InTransaction, IsStoreCommand;
    forall h, args | !InTransaction(h) && IsStoreCommand(args)
      ensures Correct(contents(h), args, server(h, args)) && contents(h + [args]) == Execute(contents(h), args)
    {
      StoreCommandOutside(initial, b, h, args);
    }
  }

  lemma StoreCommandOutside(initial: Store, b: Behaviour, h: History, args: Args)
    requires forall executed, a :: b.base(executed, a) == ModelReply(StoreAfter(initial, executed), a)
    requires !InTransaction(h) && IsStoreCommand(args)
    ensures var st := StoreAfter(initial, StateAfter(b, h).executed);
            && Correct(st, args, Respond(b, StateAfter(b, h), args))
            && StoreAfter(initial, StateAfter(b, h + [args]).executed) == Execute(st, args)
  {
    hide Correct, ModelReply, StoreAfter, Execute, StateAfter, InTransaction;
    var executed := StateAfter(b, h).executed;
    QueueingWithin(b, h);
    StateNext(b, h, args);
    ModelIsCorrect(StoreAfter(initial, executed), args);
    StoreGrows(initial, executed, args);
  }

  lemma ModelIsCorrect(st: Store, args: Args)
    ensures Correct(st, args, ModelReply(st, args))
  {
  }

  lemma StoreGrows(initial: Store, executed: History, args: Args)
    requires IsStoreCommand(args)
    ensures StoreAfter(initial, executed + [args]) == Execute(StoreAfter(initial, executed), args)
  {
    assert (executed + [args])[..|executed|] == executed;
  }
}
