/** The sharded client: one operation is split over the connections by key hash and
    its answers are put together again. */
module Cluster {
  import opened Wrappers
  import opened Decimal
  import opened Resp
  import opened Connection
  import opened Transactions

  /** A command of a batch, with the key that places it and the reply it was given. */
  datatype Command = Command(args: Args, key: string, reply: Option<Answer>)

  // ---------------------------------------------------------------- commands one at a time

  datatype Run = Run(answers: seq<Answer>, histories: seq<History>)

  function Prepended(answers: seq<Answer>, r: Run): Run {
    r.(answers := answers + r.answers)
  }

  lemma PrependedTwice(xs: seq<Answer>, x: Answer, r: Run)
    ensures Prepended(xs, Prepended([x], r)) == Prepended(xs + [x], r)
  {
    assert xs + ([x] + r.answers) == (xs + [x]) + r.answers;
  }

  lemma RequestsStep(done: string, args: Args, later: seq<Args>)
    ensures done + Requests([args] + later) == (done + Request(args)) + Requests(later)
  {
    assert ([args] + later)[1..] == later;
    assert done + (Request(args) + Requests(later)) == (done + Request(args)) + Requests(later);
  }

  lemma NoRequests(commands: seq<Args>)
    ensures Requests(commands) == "" <==> commands == []
  {
  }

  ghost predicate AllWellFormed(rs: seq<Reply>) {
    forall i :: 0 <= i < |rs| ==> WellFormed(rs[i])
  }

  lemma AfterRequest(server: Server, h: History, args: Args)
    requires Sendable(args)
    ensures After(server, View(h, "", ""), Request(args)) == View(h + [args], "", PrintReply(server(h, args)))
  {
    hide Serve, PrintReply, Request, Sendable;
    AfterRequestBehind(server, h, args, []);
    PrintedStep(server(h, args), []);
    NothingPrinted(server(h, args));
  }

  /** What the server answers to one request comes after what is still unread. */
  lemma AfterRequestBehind(server: Server, h: History, args: Args, stale: seq<Reply>)
    requires Sendable(args)
    ensures After(server, View(h, "", PrintReplies(stale)), Request(args))
         == View(h + [args], "", PrintReplies(stale + [server(h, args)]))
  {
    hide Serve, PrintReply, PrintReplies, Request, Sendable;
    ServeRequest(server, h, args);
    assert "" + Request(args) == Request(args);
    PrintedEnd(stale, server(h, args));
  }

  function ArgsOf(commands: seq<Command>): (argss: seq<Args>)
    ensures |argss| == |commands| && forall k :: 0 <= k < |commands| ==> argss[k] == commands[k].args
  {
    seq(|commands|, k requires 0 <= k < |commands| => commands[k].args)
  }

  lemma {:induction false} RequestsAppend(xs: seq<Args>, args: Args)
    ensures Requests(xs + [args]) == Requests(xs) + Request(args)
  {
    hide Request;
    if xs == [] {
      assert xs + [args] == [args];
      assert Request(args) + "" == Request(args);
    } else {
      RequestsAppend(xs[1..], args);
      assert (xs + [args])[1..] == xs[1..] + [args];
      assert Request(xs[0]) + (Requests(xs[1..]) + Request(args))
          == (Request(xs[0]) + Requests(xs[1..])) + Request(args);
    }
  }

  lemma TranscriptStarts()
    ensures Request(MULTI) == Requests([MULTI] + ArgsOf([]))
  {
  }

  lemma TranscriptStep(commands: seq<Command>, c: Command)
    ensures Requests([MULTI] + ArgsOf(commands + [c])) == Requests([MULTI] + ArgsOf(commands)) + Request(c.args)
  {
    RequestsAppend([MULTI] + ArgsOf(commands), c.args);
    assert ArgsOf(commands + [c]) == ArgsOf(commands) + [c.args];
    assert [MULTI] + ArgsOf(commands + [c]) == ([MULTI] + ArgsOf(commands)) + [c.args];
  }

  lemma TranscriptEnds(argss: seq<Args>)
    ensures Requests([MULTI] + argss) + Request(EXEC) == Requests([MULTI] + (argss + [EXEC]))
  {
    RequestsAppend([MULTI] + argss, EXEC);
    assert ([MULTI] + argss) + [EXEC] == [MULTI] + (argss + [EXEC]);
  }

  lemma TranscriptInBytes(argss: seq<Args>)
    ensures Requests([MULTI] + (argss + [EXEC]))
         == "*1\r\n$5\r\nMULTI\r\n" + Requests(argss) + "*1\r\n$4\r\nEXEC\r\n"
  {
    hide Request;
    WordsAsSent();
    RequestsAppend(argss, EXEC);
    RequestsStep("", MULTI, argss + [EXEC]);
  }

  /** What the server answers to a batch that it receives in one piece. */
  lemma AfterBatch(server: Server, h: History, commands: seq<Args>)
    requires forall i :: 0 <= i < |commands| ==> Sendable(commands[i])
    ensures After(server, View(h, "", ""), Requests(commands))
         == View(h + commands, "", PrintReplies(Replies(server, h, commands)))
  {
    hide Serve, PrintReplies, Requests, Replies, Sendable;
    ServeRequests(server, h, commands);
    assert "" + Requests(commands) == Requests(commands);
    var output := PrintReplies(Replies(server, h, commands));
    assert "" + output == output;
  }

  /** What EXEC is answered to a transaction of these commands. */
  ghost function ExecReply(b: Behaviour, h: History, argss: seq<Args>): Reply {
    if Refuses(b, argss) then Err(ABORTED) else Array(Replies(b.base, StateAfter(b, h).executed, argss))
  }

  /** The state it leaves the server in: all commands are executed, or none. */
  ghost function AllOrNone(b: Behaviour, h: History, argss: seq<Args>): TxState {
    var executed := StateAfter(b, h).executed;
    TxState(if Refuses(b, argss) then executed else executed + argss, None, false)
  }

  /** What the server answers to a transaction. */
  lemma AfterTransaction(server: Server, b: Behaviour, h: History, argss: seq<Args>)
    requires Transacts(server, b) && StateAfter(b, h).queue == None
    requires forall i :: 0 <= i < |argss| ==> IsPlain(argss[i]) && Sendable(argss[i])
    ensures var whole := [MULTI] + (argss + [EXEC]);
            && After(server, View(h, "", ""), Requests(whole))
               == View(h + whole, "", PrintReply(Status("OK")) + Output(b, argss, ExecReply(b, h, argss)))
            && StateAfter(b, h + whole) == AllOrNone(b, h, argss)
  {
    hide After, PrintReply, Requests, Replies, Output, StateAfter, Transacts, Refuses;
    AfterBatch(server, h, [MULTI] + (argss + [EXEC]));
    Transaction(server, b, h, argss);
  }

  /** recv_ok_reply_ */
  method RecvOk(c: Connection, ghost rest: string) returns (e: Option<Error>)
    requires c.Valid()
    modifies c`inbox, c`ready
    ensures c.Valid()
    ensures c.reliable && old(c.inbox) == PrintReply(Status("OK")) + rest ==> e.None? && c.inbox == rest
  {
    hide ReadStatus, PrintReply;
    ReadStatusPrinted("OK", rest);
    var text := c.RecvStatus();
    if text.Failure? {
      return Some(text.error);
    }
    e := if text.value != "OK" then Some(ProtocolError) else None;
  }

  lemma FirstIsRead(rs: seq<Reply>)
    requires rs != []
    ensures WellFormed(rs[0]) ==> ReadReply(PrintReplies(rs)) == Answered(Seen(rs[0]), PrintReplies(rs[1..]))
  {
    hide ReadReply, PrintReply, WellFormed, Seen;
    if WellFormed(rs[0]) {
      ReadReplyPrinted(rs[0], PrintReplies(rs[1..]));
    }
  }

  lemma NothingPrinted(r: Reply)
    ensures PrintReplies([]) == "" && [] + [r] == [r] && [r][1..] == []
  {
  }

  /** Nothing but a status or an error is seen as one. */
  lemma SeenApart(r: Reply, own: Reply)
    ensures (r.Status? || r.Err?) && Seen(r) == Seen(own) ==> own.Status? || own.Err?
  {
  }

  /** An error line is no status. */
  lemma ReadStatusOfErr(line: string, rest: string)
    requires IsLineText(line)
    ensures ReadStatus(PrintReply(Err(line)) + rest) == NoText(ProtocolError)
    ensures Resp.ReadLine(PrintReply(Err(line)) + rest) == Line("-" + line, rest)
  {
    hide Resp.ReadLine;
    ReadLineReply('-', line, rest);
    assert PrintReply(Err(line)) + rest == "-" + line + CRLF + rest;
  }

  /** The next acknowledgement is QUEUED, or the error of a refused command. */
  lemma NextAcknowledgement(b: Behaviour, later: seq<Args>, last: Reply)
    requires later != [] && forall args :: b.refusal(args).Some? ==> IsLineText(b.refusal(args).value)
    ensures ReadStatus(Output(b, later, last))
         == if b.refusal(later[0]).Some? then NoText(ProtocolError) else Text("QUEUED", Output(b, later[1..], last))
    ensures var rest := Output(b, later[1..], last);
            b.refusal(later[0]).Some? ==>
              Resp.ReadLine(Output(b, later, last)) == Line("-" + b.refusal(later[0]).value, rest)
    ensures Refuses(b, later) <==> b.refusal(later[0]).Some? || Refuses(b, later[1..])
    ensures AfterRefusal(b, later) == if b.refusal(later[0]).Some? then later[1..] else AfterRefusal(b, later[1..])
  {
    hide ReadStatus, PrintReply, Refuses, Resp.ReadLine;
    RefusesStep(b, later);
    var rest := Output(b, later[1..], last);
    if b.refusal(later[0]).Some? {
      ReadStatusOfErr(b.refusal(later[0]).value, rest);
    } else {
      ReadStatusPrinted("QUEUED", rest);
    }
  }

  /** The acknowledgement of each command of a transaction.  A refused one is thrown, and
      what was answered to the commands after it is left unread. */
  method RecvQueued(c: Connection, n: nat, ghost b: Behaviour, ghost commands: seq<Args>, ghost last: Reply)
      returns (e: Option<Error>)
    requires c.Valid() && |commands| == n
    modifies c`inbox, c`ready
    ensures c.Valid()
    ensures && c.reliable && old(c.inbox) == Output(b, commands, last)
            && (forall args :: b.refusal(args).Some? ==> IsLineText(b.refusal(args).value)) ==>
              if Refuses(b, commands) then
                e == Some(ProtocolError) && c.inbox == Output(b, AfterRefusal(b, commands), last)
              else e.None? && c.inbox == PrintReply(last)
  {
    hide ReadStatus, Resp.ReadLine, PrintReply, Output, Refuses, AfterRefusal;
    ghost var good := c.reliable && c.inbox == Output(b, commands, last)
      && (forall args :: b.refusal(args).Some? ==> IsLineText(b.refusal(args).value));
    assert commands[0..] == commands;
    var k := 0;
    while k < n
      invariant 0 <= k <= n && c.Valid()
      invariant good ==> c.inbox == Output(b, commands[k..], last)
      invariant good ==> (Refuses(b, commands[k..]) <==> Refuses(b, commands))
      invariant good ==> AfterRefusal(b, commands[k..]) == AfterRefusal(b, commands)
    {
      if good {
        NextAcknowledgement(b, commands[k..], last);
        assert commands[k..][1..] == commands[k + 1..];
      }
      var text := c.RecvStatus();
      if text.Failure? {
        return Some(text.error);
      }
      if text.value != "QUEUED" {
        return Some(RuntimeError);
      }
      k := k + 1;
    }
    assert commands[k..] == [];
    NoneLeft(b, last);
    e := None;
  }

  lemma NoneLeft(b: Behaviour, last: Reply)
    ensures Output(b, [], last) == PrintReply(last) && !Refuses(b, [])
  {
  }

  /** The line before the results of a transaction; the number in it is not looked at. */
  method RecvExecHeader(c: Connection, ghost results: seq<Reply>) returns (e: Option<Error>)
    requires c.Valid()
    modifies c`inbox, c`ready
    ensures c.Valid()
    ensures c.reliable && old(c.inbox) == PrintReply(Array(results)) ==> e.None? && c.inbox == PrintReplies(results)
  {
    hide Resp.ReadLine;
    DigitsAreLineText('*', |results|);
    ReadLinePrinted("*" + Print(|results|), PrintReplies(results));
    var line := c.ReadLine();
    if line.Failure? {
      return Some(line.error);
    }
    e := if line.value == "" || line.value[0] != '*' then Some(RuntimeError) else None;
  }

  lemma NextResult(results: seq<Reply>, k: nat)
    requires k < |results| && AllWellFormed(results)
    ensures ReadReply(PrintReplies(results[k..])) == Answered(Seen(results[k]), PrintReplies(results[k + 1..]))
  {
    hide ReadReply, PrintReply, WellFormed, Seen;
    assert results[k..][1..] == results[k + 1..];
    ReadReplyPrinted(results[k], PrintReplies(results[k + 1..]));
  }

  /** The results of a transaction. */
  method RecvResults(commands: array<Command>, c: Connection, ghost results: seq<Reply>) returns (e: Option<Error>)
    requires c.Valid() && |results| == commands.Length
    modifies commands, c`inbox, c`ready
    ensures c.Valid()
    ensures forall k :: 0 <= k < commands.Length ==> commands[k] == old(commands[k]).(reply := commands[k].reply)
    ensures c.reliable && AllWellFormed(results) && old(c.inbox) == PrintReplies(results) ==>
              && e.None? && c.inbox == ""
              && forall k :: 0 <= k < commands.Length ==> commands[k].reply == Some(Seen(results[k]))
  {
    hide ReadReply, PrintReply, AllWellFormed, Seen;
    ghost var good := c.reliable && AllWellFormed(results) && c.inbox == PrintReplies(results);
    assert results[0..] == results;
    var k := 0;
    while k < commands.Length
      invariant 0 <= k <= commands.Length && c.Valid()
      invariant forall j :: 0 <= j < commands.Length ==> commands[j] == old(commands[j]).(reply := commands[j].reply)
      invariant good ==> c.inbox == PrintReplies(results[k..])
      invariant good ==> forall j :: 0 <= j < k ==> commands[j].reply == Some(Seen(results[j]))
    {
      if good {
        NextResult(results, k);
      }
      var r := c.RecvReply();
      if r.Failure? {
        return Some(r.error);
      }
      commands[k] := commands[k].(reply := Some(r.value));
      k := k + 1;
    }
    e := None;
  }

  // ---------------------------------------------------------------- the client

  class Cluster {
    const connections: seq<Connection>
    const hash: string -> nat

    ghost predicate Valid()
      reads this, connections
      ensures Valid() ==> connections != []
    {
      && connections != []
      && (forall i, j :: 0 <= i < j < |connections| ==> connections[i] != connections[j])
      && (forall i :: 0 <= i < |connections| ==> connections[i].Valid())
    }

    /** Nothing is under way, and no operation on a socket fails. */
    ghost predicate Ready()
      reads this, connections
    {
      forall i :: 0 <= i < |connections| ==>
        connections[i].reliable && connections[i].request == "" && connections[i].inbox == ""
    }

    ghost function Histories(): (hs: seq<History>)
      reads connections
      ensures |hs| == |connections| && forall i :: 0 <= i < |connections| ==> hs[i] == connections[i].history
    {
      seq(|connections|, i requires 0 <= i < |connections| reads connections => connections[i].history)
    }

    /** get_socket: the connection that a key is placed on. */
    function Route(key: string): (i: nat)
      requires connections != []
      ensures i < |connections|
    {
      if |connections| == 1 then 0 else hash(key) % |connections|
    }

    /** Keys are spread by the remainder of their hash. */
    lemma RouteIsRemainder(key: string)
      requires connections != []
      ensures exists q: nat :: hash(key) == q * |connections| + Route(key)
    {
      var n := |connections|;
      assert hash(key) == (hash(key) / n) * n + hash(key) % n;
    }

    constructor (connections: seq<Connection>, hash: string -> nat)
      ensures this.connections == connections && this.hash == hash
    {
      this.connections := connections;
      this.hash := hash;
    }

    // ---------------------------------------------------------------- commands one at a time

    /** The histories after one more command. */
    ghost function Executed(histories: seq<History>, command: Command): (hs: seq<History>)
      requires connections != [] && |histories| == |connections|
      ensures |hs| == |connections|
    {
      var i := Route(command.key);
      histories[i := histories[i] + [command.args]]
    }

    lemma ExecutedSame(histories: seq<History>, c: Command, d: Command)
      requires connections != [] && |histories| == |connections| && c.args == d.args && c.key == d.key
      ensures Executed(histories, c) == Executed(histories, d)
    {
    }

    /** The batch from index `k` on, executed one command after the other. */
    ghost function RunFrom(histories: seq<History>, commands: seq<Command>, k: nat): (r: Run)
      requires connections != [] && |histories| == |connections| && k <= |commands|
      ensures |r.answers| == |commands| - k && |r.histories| == |histories|
      decreases |commands| - k
    {
      if k == |commands| then Run([], histories)
      else
        var c, i := commands[k], Route(commands[k].key);
        Prepended([Seen(connections[i].server(histories[i], c.args))], RunFrom(Executed(histories, c), commands, k + 1))
    }

    /** The commands from index `k` on that are placed on connection `i`. */
    ghost function PlacedFrom(commands: seq<Command>, k: nat, i: nat): (placed: seq<Args>)
      requires connections != [] && k <= |commands|
      ensures (forall c <- commands :: Sendable(c.args)) ==> forall args <- placed :: Sendable(args)
      decreases |commands| - k
    {
      if k == |commands| then []
      else if Route(commands[k].key) == i then [commands[k].args] + PlacedFrom(commands, k + 1, i)
      else PlacedFrom(commands, k + 1, i)
    }

    /** Every server answers its part of the batch, from index `k` on, with replies that can be read. */
    ghost predicate ReadableFrom(histories: seq<History>, commands: seq<Command>, k: nat)
      requires connections != [] && |histories| == |connections| && k <= |commands|
    {
      forall i :: 0 <= i < |connections| ==>
        AllWellFormed(Replies(connections[i].server, histories[i], PlacedFrom(commands, k, i)))
    }

    /** exec(command).  Its answer is the first reply that is unread, whatever that belongs
        to; in general `stale` is what was left before. */
    method Exec(command: Command, ghost stale: seq<Reply> := []) returns (answered: Command, e: Option<Error>)
      requires Valid() && Sendable(command.args)
      modifies connections
      ensures Valid() && answered == command.(reply := answered.reply)
      ensures var c := connections[Route(command.key)];
              var unread := stale + [old(c.server(c.history, command.args))];
              c.reliable && old(c.request) == "" && old(c.inbox) == PrintReplies(stale) && WellFormed(unread[0]) ==>
                && e.None? && answered.reply == Some(Seen(unread[0]))
                && c.Now() == View(old(c.history) + [command.args], "", PrintReplies(unread[1..]))
      ensures var i := Route(command.key);
              var r := old(connections[i].server(connections[i].history, command.args));
              old(Ready()) && WellFormed(r) ==>
                && e.None? && Ready()
                && answered.reply == Some(Seen(r))
                && Histories() == Executed(old(Histories()), command)
    {
      hide Connection.Valid, Seen, WellFormed, PrintReply, PrintReplies, ReadReply, Request, Sendable, After;
      var i := Route(command.key);
      answered, e := command, None;
      ghost var reply := connections[i].server(connections[i].history, command.args);
      AfterRequestBehind(connections[i].server, connections[i].history, command.args, []);
      AfterRequestBehind(connections[i].server, connections[i].history, command.args, stale);
      FirstIsRead([reply]);
      FirstIsRead(stale + [reply]);
      NothingPrinted(reply);
      var sent := connections[i].Send(Request(command.args));
      if !sent {
        return command, Some(ConnectionError);
      }
      var r := connections[i].RecvReply();
      if r.Failure? {
        return command, Some(r.error);
      }
      answered := command.(reply := Some(r.value));
    }

    /** What the client can see of every connection. */
    ghost function Views(): (views: seq<View>)
      reads connections
      ensures |views| == |connections| && forall i :: 0 <= i < |connections| ==> views[i] == connections[i].Now()
    {
      seq(|connections|, i requires 0 <= i < |connections| reads connections => connections[i].Now())
    }

    /** Each server has received its request, except for those in `todo`, and nothing else has happened. */
    ghost predicate Sent(before: seq<View>, requests: map<nat, string>, todo: set<nat>)
      reads connections
    {
      |before| == |connections| && forall i :: 0 <= i < |connections| ==>
        connections[i].Now() == if i in requests && i !in todo then After(connections[i].server, before[i], requests[i])
                                else before[i]
    }

    /** One more request has been sent. */
    twostate lemma SentOne(new before: seq<View>, new requests: map<nat, string>, new todo: set<nat>, new i: nat)
      requires i in todo && i in requests && i < |connections| && old(Sent(before, requests, todo))
      requires connections[i].Took(requests[i])
      requires forall j :: 0 <= j < |connections| && j != i ==> unchanged(connections[j])
      ensures Sent(before, requests, todo - {i})
    {
      hide After;
    }

    /** Sends each request to its connection, in any order. */
    method SendEach(requests: map<nat, string>) returns (ok: bool)
      requires Valid() && forall i <- requests :: i < |connections|
      modifies connections
      ensures Valid()
      ensures old(Ready()) ==> ok && Sent(old(Views()), requests, {})
    {
      hide After, Sent, Serve, Connection.Valid;
      ghost var before, good := Views(), Ready();
      NothingSent(requests);
      var todo := requests.Keys;
      while todo != {}
        invariant Valid() && todo <= requests.Keys
        invariant good ==> Sent(before, requests, todo)
        decreases |todo|
      {
        var i :| i in todo;
        label before_it:
        var sent := connections[i].Send(requests[i]);
        if !sent {
          return false;
        }
        if good {
          SentOne@before_it(before, requests, todo, i);
        }
        todo := todo - {i};
      }
      ok := true;
    }

    lemma NothingSent(requests: map<nat, string>)
      ensures Sent(Views(), requests, requests.Keys)
    {
    }

    // ---------------------------------------------------------------- exec(vector)

    /** What is still to be read while the batch is answered from index `k` on. */
    ghost predicate Answering(histories: seq<History>, commands: seq<Command>, k: nat)
      reads connections
      requires connections != [] && |histories| == |connections| && k <= |commands|
    {
      forall i :: 0 <= i < |connections| ==>
        && connections[i].reliable && connections[i].request == ""
        && AllWellFormed(Replies(connections[i].server, histories[i], PlacedFrom(commands, k, i)))
        && connections[i].inbox
            == PrintReplies(Replies(connections[i].server, histories[i], PlacedFrom(commands, k, i)))
        && connections[i].history == histories[i] + PlacedFrom(commands, k, i)
    }

    /** The requests of a batch, put together for each connection. */
    method Scatter(commands: array<Command>) returns (requests: map<nat, string>)
      requires connections != []
      ensures forall i <- requests :: i < |connections|
      ensures forall i :: 0 <= i < |connections| ==>
                (if i in requests then requests[i] else "") == Requests(PlacedFrom(commands[..], 0, i))
      ensures forall i :: 0 <= i < |connections| && i !in requests ==> PlacedFrom(commands[..], 0, i) == []
    {
      hide Request, Requests, Sendable;
      requests := map[];
      NoRequests([]);
      ghost var cs := commands[..];
      var k := 0;
      while k < commands.Length
        invariant 0 <= k <= commands.Length
        invariant forall i <- requests :: i < |connections|
        invariant forall i :: 0 <= i < |connections| ==>
                    (if i in requests then requests[i] else "") + Requests(PlacedFrom(cs, k, i))
                        == Requests(PlacedFrom(cs, 0, i))
      {
        var i := Route(commands[k].key);
        var before := if i in requests then requests[i] else "";
        RequestsStep(before, commands[k].args, PlacedFrom(cs, k + 1, i));
        requests := requests[i := before + Request(commands[k].args)];
        k := k + 1;
      }
      forall i | 0 <= i < |connections|
        ensures (if i in requests then requests[i] else "") == Requests(PlacedFrom(cs, 0, i))
        ensures i !in requests ==> PlacedFrom(cs, 0, i) == []
      {
        var sent := if i in requests then requests[i] else "";
        assert sent + "" == sent;
        NoRequests(PlacedFrom(cs, 0, i));
      }
    }

    /** The next reply on the connection of command `k` is the reply to command `k`. */
    lemma NextReply(histories: seq<History>, commands: seq<Command>, k: nat)
      requires connections != [] && |histories| == |connections| && k < |commands|
      requires Answering(histories, commands, k)
      ensures var i := Route(commands[k].key);
              var server, args := connections[i].server, commands[k].args;
              var after, later := histories[i] + [args], PlacedFrom(commands, k + 1, i);
              && WellFormed(server(histories[i], args))
              && connections[i].inbox
                  == PrintReply(server(histories[i], args)) + PrintReplies(Replies(server, after, later))
              && AllWellFormed(Replies(server, after, later))
              && connections[i].history == after + later
    {
    }

    /** Reads the reply to command `k`. */
    method ReadNext(command: Command, ghost histories: seq<History>, ghost commands: seq<Command>, ghost k: nat)
        returns (r: Result<Answer, Error>)
      requires Valid() && |histories| == |connections| && k < |commands|
      requires command.key == commands[k].key && command.args == commands[k].args
      modifies connections
      ensures Valid()
      ensures old(Answering(histories, commands, k)) ==>
                var i := Route(command.key);
                && r == Success(Seen(connections[i].server(histories[i], command.args)))
                && Answering(Executed(histories, command), commands, k + 1)
    {
      hide WellFormed, PrintReply, PrintReplies, Replies, ReadReply;
      var i := Route(command.key);
      if Answering(histories, commands, k) {
        NextReply(histories, commands, k);
        ReadReplyPrinted(connections[i].server(histories[i], command.args),
                         PrintReplies(Replies(connections[i].server, histories[i] + [command.args],
                                              PlacedFrom(commands, k + 1, i))));
      }
      r := connections[i].RecvReply();
    }

    /** The batch has been sent. */
    twostate lemma BatchSent(commands: seq<Command>, new requests: map<nat, string>)
      requires connections != [] && old(Ready()) && old(ReadableFrom(Histories(), commands, 0))
      requires forall c <- commands :: Sendable(c.args)
      requires Sent(old(Views()), requests, {})
      requires forall i :: 0 <= i < |connections| ==>
                 && (if i in requests then requests[i] else "") == Requests(PlacedFrom(commands, 0, i))
                 && (i !in requests ==> PlacedFrom(commands, 0, i) == [])
      ensures Answering(old(Histories()), commands, 0)
    {
      hide After, PrintReply, Requests;
      forall i | 0 <= i < |connections|
        ensures connections[i].request == ""
        ensures connections[i].inbox == PrintReplies(Replies(connections[i].server, old(connections[i].history),
                                                             PlacedFrom(commands, 0, i)))
        ensures connections[i].history == old(connections[i].history) + PlacedFrom(commands, 0, i)
      {
        var placed := PlacedFrom(commands, 0, i);
        AfterBatch(connections[i].server, old(connections[i].history), placed);
        assert old(connections[i].history) + [] == old(connections[i].history);
        assert i in requests || placed == [];
      }
    }

    /** A run takes one command at a time, after the answers that are there. */
    lemma RunStep(answers: seq<Answer>, histories: seq<History>, commands: seq<Command>, k: nat, answer: Answer)
      requires connections != [] && |histories| == |connections| && k < |commands|
      requires var i := Route(commands[k].key); answer == Seen(connections[i].server(histories[i], commands[k].args))
      ensures Prepended(answers, RunFrom(histories, commands, k))
           == Prepended(answers + [answer], RunFrom(Executed(histories, commands[k]), commands, k + 1))
    {
      PrependedTwice(answers, answer, RunFrom(Executed(histories, commands[k]), commands, k + 1));
    }

    lemma RunEnds(answers: seq<Answer>, histories: seq<History>, commands: seq<Command>)
      requires connections != [] && |histories| == |connections|
      ensures Prepended(answers, RunFrom(histories, commands, |commands|)) == Run(answers, histories)
      ensures Prepended([], RunFrom(histories, commands, 0)) == RunFrom(histories, commands, 0)
      ensures Answering(histories, commands, |commands|) ==> Ready() && Histories() == histories
    {
      assert answers + [] == answers;
      var run := RunFrom(histories, commands, 0);
      assert [] + run.answers == run.answers;
      if Answering(histories, commands, |commands|) {
        forall i | 0 <= i < |connections|
          ensures Histories()[i] == histories[i]
        {
          assert histories[i] + PlacedFrom(commands, |commands|, i) == histories[i];
        }
      }
    }

    /** Reads the replies in command order. */
    method Gather(commands: array<Command>, ghost histories: seq<History>) returns (e: Option<Error>)
      requires Valid() && |histories| == |connections|
      modifies commands, connections
      ensures Valid()
      ensures forall k :: 0 <= k < commands.Length ==> commands[k] == old(commands[k]).(reply := commands[k].reply)
      ensures old(Answering(histories, commands[..], 0)) ==>
                var r := RunFrom(histories, old(commands[..]), 0);
                && e.None? && Ready() && Histories() == r.histories
                && forall k :: 0 <= k < commands.Length ==> commands[k].reply == Some(r.answers[k])
    {
      hide *;
      e := None;
      ghost var cs, hs, answers := commands[..], histories, [];
      ghost var good, run := Answering(hs, cs, 0), RunFrom(hs, cs, 0);
      RunEnds(answers, hs, cs);
      var k := 0;
      while k < commands.Length
        invariant 0 <= k <= commands.Length && |hs| == |connections| && Valid()
        invariant forall j :: 0 <= j < commands.Length ==> commands[j] == cs[j].(reply := commands[j].reply)
        invariant good ==> Answering(hs, cs, k) && run == Prepended(answers, RunFrom(hs, cs, k))
        invariant good ==> |answers| == k && forall j :: 0 <= j < k ==> commands[j].reply == Some(answers[j])
      {
        ExecutedSame(hs, commands[k], cs[k]);
        var r := ReadNext(commands[k], hs, cs, k);
        if r.Failure? {
          return Some(r.error);
        }
        commands[k] := commands[k].(reply := Some(r.value));
        if good {
          RunStep(answers, hs, cs, k, r.value);
        }
        answers, hs := answers + [r.value], Executed(hs, cs[k]);
        k := k + 1;
      }
      RunEnds(answers, hs, cs);
    }

    lemma ReadableNext(histories: seq<History>, commands: seq<Command>, k: nat)
      requires connections != [] && |histories| == |connections| && k < |commands|
      requires ReadableFrom(histories, commands, k)
      ensures var i := Route(commands[k].key); WellFormed(connections[i].server(histories[i], commands[k].args))
      ensures ReadableFrom(Executed(histories, commands[k]), commands, k + 1)
    {
      hide WellFormed;
      var i := Route(commands[k].key);
      var server, args, later := connections[i].server, commands[k].args, PlacedFrom(commands, k + 1, i);
      var rs := Replies(server, histories[i] + [args], later);
      RepliesStep(server, histories[i], args, later);
      var all := [server(histories[i], args)] + rs;
      assert WellFormed(all[0]);
      assert forall j :: 0 <= j < |rs| ==> rs[j] == all[j + 1];
    }

    /** One turn of the loop of exec(command). */
    method ExecNext(commands: array<Command>, k: nat, ghost histories: seq<History>, ghost cs: seq<Command>)
        returns (e: Option<Error>)
      requires Valid() && |histories| == |connections| && k < commands.Length == |cs| && Sendable(commands[k].args)
      requires commands[k].args == cs[k].args && commands[k].key == cs[k].key
      modifies commands, connections
      ensures Valid()
      ensures forall j :: 0 <= j < commands.Length && j != k ==> commands[j] == old(commands[j])
      ensures commands[k] == old(commands[k]).(reply := commands[k].reply)
      ensures old(Ready() && Histories() == histories && ReadableFrom(histories, cs, k)) ==>
                && e.None? && Ready() && Histories() == Executed(histories, cs[k])
                && ReadableFrom(Executed(histories, cs[k]), cs, k + 1)
                && commands[k].reply
                    == Some(Seen(connections[Route(cs[k].key)].server(histories[Route(cs[k].key)], cs[k].args)))
    {
      hide *;
      ExecutedSame(histories, commands[k], cs[k]);
      if Ready() && Histories() == histories && ReadableFrom(histories, cs, k) {
        ReadableNext(histories, cs, k);
      }
      var answered;
      answered, e := Exec(commands[k]);
      if e.None? {
        commands[k] := answered;
      }
    }

    /** The batch as a loop of exec(command). */
    method ExecEach(commands: array<Command>) returns (e: Option<Error>)
      requires Valid() && forall c <- commands[..] :: Sendable(c.args)
      modifies commands, connections
      ensures Valid()
      ensures forall k :: 0 <= k < commands.Length ==> commands[k] == old(commands[k]).(reply := commands[k].reply)
      ensures old(Ready() && ReadableFrom(Histories(), commands[..], 0)) ==>
                var r := old(RunFrom(Histories(), commands[..], 0));
                && e.None? && Ready() && Histories() == r.histories
                && forall k :: 0 <= k < commands.Length ==> commands[k].reply == Some(r.answers[k])
    {
      hide *;
      e := None;
      ghost var cs, hs, answers := commands[..], Histories(), [];
      ghost var good, run := Ready() && ReadableFrom(Histories(), cs, 0), RunFrom(hs, cs, 0);
      RunEnds(answers, hs, cs);
      var k := 0;
      while k < commands.Length
        invariant 0 <= k <= commands.Length && |hs| == |connections| && Valid() && e.None?
        invariant forall j :: 0 <= j < commands.Length ==> commands[j] == cs[j].(reply := commands[j].reply)
        invariant good ==> Ready() && Histories() == hs && ReadableFrom(hs, cs, k)
        invariant good ==> run == Prepended(answers, RunFrom(hs, cs, k))
        invariant good ==> |answers| == k && forall j :: 0 <= j < k ==> commands[j].reply == Some(answers[j])
      {
        ghost var answer := Seen(connections[Route(cs[k].key)].server(hs[Route(cs[k].key)], cs[k].args));
        RunStep(answers, hs, cs, k, answer);
        e := ExecNext(commands, k, hs, cs);
        if e.Some? {
          return;
        }
        answers, hs := answers + [answer], Executed(hs, cs[k]);
        k := k + 1;
      }
      RunEnds(answers, hs, cs);
    }

    /** exec(vector): every request is sent before the first reply is read. */
    method ExecAll(commands: array<Command>) returns (e: Option<Error>)
      requires Valid() && forall c <- commands[..] :: Sendable(c.args)
      modifies commands, connections
      ensures Valid()
      ensures forall k :: 0 <= k < commands.Length ==> commands[k] == old(commands[k]).(reply := commands[k].reply)
      ensures old(Ready() && ReadableFrom(Histories(), commands[..], 0)) ==>
                var r := old(RunFrom(Histories(), commands[..], 0));
                && e.None? && Ready() && Histories() == r.histories
                && forall k :: 0 <= k < commands.Length ==> commands[k].reply == Some(r.answers[k])
    {
      hide *;
      ghost var cs, hs, good := commands[..], Histories(), Ready() && ReadableFrom(Histories(), commands[..], 0);
      var requests := Scatter(commands);
      var sent := SendEach(requests);
      if !sent {
        return Some(ConnectionError);
      }
      if good {
        BatchSent(cs, requests);
      }
      assert commands[..] == cs;
      e := Gather(commands, hs);
    }

    // ---------------------------------------------------------------- exec_transaction

    /** All commands are placed on connection `i`. */
    ghost predicate PlacedTogether(commands: seq<Command>, i: nat)
      requires connections != []
    {
      forall c <- commands :: Route(c.key) == i
    }

    /** All commands are plain and placed on one server, which is not within a transaction. */
    ghost predicate TransactionReady(commands: seq<Command>, b: Behaviour)
      reads this, connections
    {
      && connections != [] && commands != [] && Ready()
      && var i := Route(commands[0].key);
      && PlacedTogether(commands, i)
      && Transacts(connections[i].server, b)
      && StateAfter(b, connections[i].history).queue == None
      && (forall c <- commands :: IsPlain(c.args))
      && AllWellFormed(Replies(b.base, StateAfter(b, connections[i].history).executed, ArgsOf(commands)))
    }

    /** The request text, up to the commands that are placed apart from the first. */
    method Transcript(commands: array<Command>) returns (i: int, text: string, apart: bool)
      requires connections != []
      ensures apart <==> exists j, k :: 0 <= j < k < commands.Length && Route(commands[j].key) != Route(commands[k].key)
      ensures !apart && commands.Length > 0 ==> 0 <= i < |connections| && PlacedTogether(commands[..], i)
      ensures commands.Length == 0 ==> i == -1
      ensures !apart ==> text == Requests([MULTI] + (ArgsOf(commands[..]) + [EXEC]))
      ensures !apart ==>
                text == "*1\r\n$5\r\nMULTI\r\n" + Requests(ArgsOf(commands[..])) + "*1\r\n$4\r\nEXEC\r\n"
    {
      hide Request, Requests, ArgsOf;
      i, text, apart := -1, Request(MULTI), false;
      TranscriptStarts();
      assert commands[..0] == [];
      var k := 0;
      while k < commands.Length
        invariant 0 <= k <= commands.Length
        invariant if k == 0 then i == -1 else 0 <= i < |connections|
        invariant forall j :: 0 <= j < k ==> Route(commands[j].key) == i
        invariant text == Requests([MULTI] + ArgsOf(commands[..k]))
      {
        var socket := Route(commands[k].key);
        if i == -1 {
          i := socket;
        } else if i != socket {
          assert Route(commands[0].key) != Route(commands[k].key);
          return i, text, true;
        }
        TranscriptStep(commands[..k], commands[k]);
        assert commands[..k] + [commands[k]] == commands[..k + 1];
        text := text + Request(commands[k].args);
        k := k + 1;
      }
      assert commands[..k] == commands[..];
      TranscriptEnds(ArgsOf(commands[..]));
      TranscriptInBytes(ArgsOf(commands[..]));
      text := text + Request(EXEC);
    }

    /** Reads what the server answers to a transaction of these commands. */
    method ReadTransaction(commands: array<Command>, c: Connection, ghost b: Behaviour, ghost argss: seq<Args>,
                           ghost results: seq<Reply>)
        returns (e: Option<Error>)
      requires c.Valid() && |results| == commands.Length == |argss|
      modifies commands, c`inbox, c`ready
      ensures c.Valid()
      ensures forall k :: 0 <= k < commands.Length ==> commands[k] == old(commands[k]).(reply := commands[k].reply)
      ensures var last := if Refuses(b, argss) then Err(ABORTED) else Array(results);
              && c.reliable && AllWellFormed(results)
              && (forall args :: b.refusal(args).Some? ==> IsLineText(b.refusal(args).value))
              && old(c.inbox) == PrintReply(Status("OK")) + Output(b, argss, last) ==>
                if Refuses(b, argss) then
                  && e == Some(ProtocolError) && commands[..] == old(commands[..])
                  && c.inbox == Output(b, AfterRefusal(b, argss), Err(ABORTED))
                else
                  && e.None? && c.inbox == ""
                  && forall k :: 0 <= k < commands.Length ==> commands[k].reply == Some(Seen(results[k]))
    {
      hide *;
      ghost var last := if Refuses(b, argss) then Err(ABORTED) else Array(results);
      e := RecvOk(c, Output(b, argss, last));
      if e.Some? {
        return;
      }
      e := RecvQueued(c, commands.Length, b, argss, last);
      if e.Some? {
        return;
      }
      e := RecvExecHeader(c, results);
      if e.Some? {
        return;
      }
      e := RecvResults(commands, c, results);
    }

    /** Sends a transaction and reads what the server answers. */
    method Transact(commands: array<Command>, c: Connection, text: string, ghost b: Behaviour)
        returns (e: Option<Error>)
      requires c.Valid()
      modifies commands, c
      ensures c.Valid()
      ensures forall k :: 0 <= k < commands.Length ==> commands[k] == old(commands[k]).(reply := commands[k].reply)
      ensures var argss, h := ArgsOf(old(commands[..])), old(c.history);
              var results := Replies(b.base, StateAfter(b, h).executed, argss);
              && c.reliable && old(c.inbox) == "" && old(c.request) == ""
              && Transacts(c.server, b) && StateAfter(b, h).queue == None
              && (forall k :: 0 <= k < |argss| ==> IsPlain(argss[k]) && Sendable(argss[k]))
              && AllWellFormed(results) && text == Requests([MULTI] + (argss + [EXEC])) ==>
                && c.request == "" && StateAfter(b, c.history) == AllOrNone(b, h, argss)
                && if Refuses(b, argss) then
                     && e == Some(ProtocolError) && commands[..] == old(commands[..])
                     && c.inbox == PrintReplies(Unread(b, argss))
                   else
                     && e.None? && c.inbox == ""
                     && forall k :: 0 <= k < commands.Length ==> commands[k].reply == Some(Seen(results[k]))
    {
      hide After, PrintReply, PrintReplies, Output, StateAfter, Requests, Replies, AllWellFormed, Seen, Sendable,
           IsPlain, Refuses, AfterRefusal, Respond, AllOrNone;
      ghost var h, argss := c.history, ArgsOf(commands[..]);
      ghost var results := Replies(b.base, StateAfter(b, h).executed, argss);
      if Transacts(c.server, b) && StateAfter(b, h).queue == None
         && forall k :: 0 <= k < |argss| ==> IsPlain(argss[k]) && Sendable(argss[k]) {
        AfterTransaction(c.server, b, h, argss);
      }
      var sent := c.Send(text);
      if !sent {
        return Some(ConnectionError);
      }
      OutputPrinted(b, AfterRefusal(b, argss), Err(ABORTED));
      e := ReadTransaction(commands, c, b, argss, results);
    }

    /** exec_transaction, on a server of this behaviour.  A refused command makes it throw;
        then no command of the transaction has been executed, and what was answered after
        the refusal is still unread. */
    method ExecTransaction(commands: array<Command>, ghost b: Behaviour) returns (e: Option<Error>)
      requires Valid() && forall c <- commands[..] :: Sendable(c.args)
      modifies commands, connections
      ensures Valid()
      ensures forall k :: 0 <= k < commands.Length ==> commands[k] == old(commands[k]).(reply := commands[k].reply)
      ensures commands.Length == 0 ==> e == Some(ConnectionError) && Histories() == old(Histories())
      ensures (exists j, k ::
               0 <= j < k < commands.Length && Route(old(commands[j]).key) != Route(old(commands[k]).key)) ==>
                e == Some(RuntimeError) && commands[..] == old(commands[..]) && Histories() == old(Histories())
      ensures commands.Length > 0 && old(TransactionReady(commands[..], b)) ==>
                var i := Route(old(commands[0]).key);
                var before, argss := StateAfter(b, old(connections[i].history)), ArgsOf(old(commands[..]));
                && (forall j :: 0 <= j < |connections| && j != i ==> connections[j].Now() == old(connections[j].Now()))
                && connections[i].request == ""
                && StateAfter(b, connections[i].history) == AllOrNone(b, old(connections[i].history), argss)
                && if Refuses(b, argss) then
                     && e == Some(ProtocolError) && commands[..] == old(commands[..])
                     && connections[i].inbox == PrintReplies(Unread(b, argss))
                   else
                     && e.None? && Ready()
                     && forall k :: 0 <= k < commands.Length ==>
                          commands[k].reply == Some(Seen(Replies(b.base, before.executed, argss)[k]))
    {
      hide After, PrintReply, PrintReplies, Unread, Output, StateAfter, Transacts, Requests, WellFormed,
           AllWellFormed, Replies, Seen, IsPlain, Sendable, Respond, Refuses, AllOrNone, Connection.Valid;
      var i, text, apart := Transcript(commands);
      if apart {
        return Some(RuntimeError);
      }
      if i == -1 {
        return Some(ConnectionError);
      }
      e := Transact(commands, connections[i], text, b);
    }

    /** A caller that catches the exception and sends its next command to the same server is
        given an answer that was meant for the transaction.  Its own is left unread in turn,
        so that every later command is as far behind. */
    method ExecAfterRefusal(commands: array<Command>, next: Command, ghost b: Behaviour)
        returns (answered: Command, e: Option<Error>)
      requires Valid() && Sendable(next.args) && commands.Length > 0 && forall c <- commands[..] :: Sendable(c.args)
      modifies commands, connections
      ensures Valid()
      ensures var c, argss := connections[Route(next.key)], ArgsOf(old(commands[..]));
              var unread := Unread(b, argss);
              && old(TransactionReady(commands[..], b)) && Refuses(b, argss)
              && Route(next.key) == Route(old(commands[0]).key) && WellFormed(unread[0]) ==>
                && c.history != [] && c.request == "" && e.None?
                && var own := c.server(c.history[..|c.history| - 1], next.args);
                   && answered.reply == Some(Seen(unread[0]))
                   && (own.Status? || own.Err? || answered.reply != Some(Seen(own)))
                   && c.inbox == PrintReplies(unread[1..] + [own])
    {
      hide After, PrintReply, PrintReplies, Unread, Output, StateAfter, Transacts, Requests, WellFormed,
           AllWellFormed, Replies, Seen, IsPlain, Sendable, Respond, Refuses, AllOrNone, Connection.Valid;
      ghost var unread := Unread(b, ArgsOf(commands[..]));
      var thrown := ExecTransaction(commands, b);
      ghost var own := connections[Route(next.key)].server(connections[Route(next.key)].history, next.args);
      SeenApart(unread[0], own);
      assert (unread + [own])[1..] == unread[1..] + [own];
      answered, e := Exec(next, unread);
    }
  }

  /** A client of these servers; None stands for the exception that is thrown without any. */
  method Connect(servers: seq<Server>, hash: string -> nat, reliable: bool) returns (client: Option<Cluster>)
    ensures client.None? <==> servers == []
    ensures client.Some? ==>
              var c := client.value;
              && fresh(c) && c.Valid() && c.hash == hash && |c.connections| == |servers|
              && (forall i :: 0 <= i < |servers| ==>
                    fresh(c.connections[i]) && c.connections[i].server == servers[i] && c.connections[i].history == [])
              && (reliable ==> c.Ready())
  {
    if servers == [] {
      return None;
    }
    var connections: seq<Connection> := [];
    while |connections| < |servers|
      invariant |connections| <= |servers|
      invariant forall i, j :: 0 <= i < j < |connections| ==> connections[i] != connections[j]
      invariant forall i :: 0 <= i < |connections| ==>
                  && fresh(connections[i]) && connections[i].Valid() && connections[i].server == servers[i]
                  && connections[i].reliable == reliable
                  && connections[i].history == [] && connections[i].request == "" && connections[i].inbox == ""
    {
      var c := new Connection(servers[|connections|], reliable);
      connections := connections + [c];
    }
    var cluster := new Cluster(connections, hash);
    client := Some(cluster);
  }
}
