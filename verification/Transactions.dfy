/** MULTI, QUEUED and EXEC on the server's side: commands sent between MULTI and EXEC
    are queued, and then executed together, unless one of them was refused. */
module Transactions {
  import opened Wrappers
  import opened Decimal
  import opened Resp
  import opened Connection

  const MULTI: Args := ["MULTI"]
  const EXEC: Args := ["EXEC"]
  const DISCARD: Args := ["DISCARD"]

  /** How a server executes commands outside a transaction, and which commands it
      refuses to queue, with the line of its answer. */
  datatype Behaviour = Behaviour(base: Server, refusal: Args -> Option<string>)

  /** The commands executed, those queued since a MULTI, and whether one was refused. */
  datatype TxState = TxState(executed: History, queue: Option<seq<Args>>, doomed: bool)

  predicate IsPlain(args: Args) {
    args != MULTI && args != EXEC && args != DISCARD
  }

  function Next(b: Behaviour, t: TxState, args: Args): TxState {
    match t.queue
    case None =>
      if args == MULTI then t.(queue := Some([]), doomed := false)
      else if IsPlain(args) then t.(executed := t.executed + [args])
      else t
    case Some(queue) =>
      if args == EXEC then TxState(if t.doomed then t.executed else t.executed + queue, None, false)
      else if args == DISCARD then TxState(t.executed, None, false)
      else if args == MULTI then t
      else if b.refusal(args).Some? then t.(doomed := true)
      else t.(queue := Some(queue + [args]))
  }

  function StateAfter(b: Behaviour, h: History): TxState {
    if h == [] then TxState([], None, false) else Next(b, StateAfter(b, h[..|h| - 1]), h[|h| - 1])
  }

  /** A MULTI is waiting for its EXEC. */
  predicate InTransaction(h: History) {
    h != [] && (h[|h| - 1] == MULTI || (IsPlain(h[|h| - 1]) && InTransaction(h[..|h| - 1])))
  }

  lemma {:induction false} QueueingWithin(b: Behaviour, h: History)
    ensures StateAfter(b, h).queue.Some? <==> InTransaction(h)
  {
    if h != [] {
      QueueingWithin(b, h[..|h| - 1]);
    }
  }

  const ABORTED := "EXECABORT Transaction discarded because of previous errors."

  /** What EXEC is answered. */
  function Results(b: Behaviour, t: TxState, queue: seq<Args>): Reply {
    if t.doomed then Err(ABORTED) else Array(Replies(b.base, t.executed, queue))
  }

  /** What a command within a transaction is answered. */
  function Acknowledgement(b: Behaviour, args: Args): Reply {
    if b.refusal(args).Some? then Err(b.refusal(args).value) else Status("QUEUED")
  }

  function Respond(b: Behaviour, t: TxState, args: Args): Reply {
    match t.queue
    case None =>
      if args == MULTI then Status("OK")
      else if args == EXEC then Err("ERR EXEC without MULTI")
      else if args == DISCARD then Err("ERR DISCARD without MULTI")
      else b.base(t.executed, args)
    case Some(queue) =>
      if args == EXEC then Results(b, t, queue)
      else if args == DISCARD then Status("OK")
      else if args == MULTI then Err("ERR MULTI calls can not be nested")
      else Acknowledgement(b, args)
  }

  ghost predicate Transacts(server: Server, b: Behaviour) {
    && (forall h, args :: server(h, args) == Respond(b, StateAfter(b, h), args))
    && (forall args :: b.refusal(args).Some? ==> IsLineText(b.refusal(args).value))
  }

  /** What the words mean to a server, outside a transaction and within one. */
  lemma WordsOutside(b: Behaviour, t: TxState, args: Args)
    requires t.queue == None
    ensures IsPlain(args) <==> args != ["MULTI"] && args != ["EXEC"] && args != ["DISCARD"]
    ensures args == ["MULTI"] ==>
              Respond(b, t, args) == Status("OK") && Next(b, t, args) == TxState(t.executed, Some([]), false)
    ensures args == ["EXEC"] || args == ["DISCARD"] ==> Respond(b, t, args).Err? && Next(b, t, args) == t
    ensures IsPlain(args) ==>
              && Respond(b, t, args) == b.base(t.executed, args)
              && Next(b, t, args) == t.(executed := t.executed + [args])
  {
  }

  lemma WordsWithin(b: Behaviour, t: TxState, args: Args)
    requires t.queue.Some?
    ensures args == ["EXEC"] ==>
              && Respond(b, t, args)
                 == (if t.doomed then Err("EXECABORT Transaction discarded because of previous errors.")
                     else Array(Replies(b.base, t.executed, t.queue.value)))
              && Next(b, t, args) == TxState(if t.doomed then t.executed else t.executed + t.queue.value, None, false)
    ensures args == ["DISCARD"] ==>
              Respond(b, t, args) == Status("OK") && Next(b, t, args) == TxState(t.executed, None, false)
    ensures args == ["MULTI"] ==> Respond(b, t, args).Err? && Next(b, t, args) == t
    ensures IsPlain(args) && b.refusal(args).None? ==>
              && Respond(b, t, args) == Status("QUEUED")
              && Next(b, t, args) == t.(queue := Some(t.queue.value + [args]))
    ensures IsPlain(args) && b.refusal(args).Some? ==>
              && Respond(b, t, args) == Err(b.refusal(args).value)
              && Next(b, t, args) == t.(doomed := true)
  {
  }

  /** The words as they are sent. */
  lemma WordsAsSent()
    ensures Request(MULTI) == "*1\r\n$5\r\nMULTI\r\n" && Request(EXEC) == "*1\r\n$4\r\nEXEC\r\n"
  {
    RequestOfOne("MULTI");
    RequestOfOne("EXEC");
    assert Digits(1) == "1" && Digits(5) == "5" && Digits(4) == "4";
  }

  /** One of these commands is refused. */
  predicate Refuses(b: Behaviour, commands: seq<Args>) {
    exists i :: 0 <= i < |commands| && b.refusal(commands[i]).Some?
  }

  lemma RefusesStep(b: Behaviour, later: seq<Args>)
    requires later != []
    ensures Refuses(b, later) <==> b.refusal(later[0]).Some? || Refuses(b, later[1..])
  {
    if i :| 0 <= i < |later[1..]| && b.refusal(later[1..][i]).Some? {
      assert b.refusal(later[i + 1]).Some?;
    }
    if i :| 0 <= i < |later| && b.refusal(later[i]).Some? {
      assert i == 0 || b.refusal(later[1..][i - 1]).Some?;
    }
  }

  /** The bytes that follow MULTI's OK while `later` is still to be acknowledged. */
  function Output(b: Behaviour, later: seq<Args>, last: Reply): string
    decreases later
  {
    if later == [] then PrintReply(last) else PrintReply(Acknowledgement(b, later[0])) + Output(b, later[1..], last)
  }

  /** The commands after the first refused one. */
  function AfterRefusal(b: Behaviour, commands: seq<Args>): seq<Args> {
    if commands == [] then []
    else if b.refusal(commands[0]).Some? then commands[1..]
    else AfterRefusal(b, commands[1..])
  }

  function Acknowledgements(b: Behaviour, later: seq<Args>): (rs: seq<Reply>)
    ensures |rs| == |later| && forall i :: 0 <= i < |later| ==> rs[i] == Acknowledgement(b, later[i])
  {
    seq(|later|, i requires 0 <= i < |later| => Acknowledgement(b, later[i]))
  }

  /** What a client that stops reading at the first refusal leaves unread. */
  function Unread(b: Behaviour, commands: seq<Args>): (rs: seq<Reply>)
    ensures rs != [] && |rs| == |AfterRefusal(b, commands)| + 1
    ensures forall r <- rs :: r.Status? || r.Err?
  {
    Acknowledgements(b, AfterRefusal(b, commands)) + [Err(ABORTED)]
  }

  lemma {:induction false} OutputPrinted(b: Behaviour, later: seq<Args>, last: Reply)
    ensures Output(b, later, last) == PrintReplies(Acknowledgements(b, later) + [last])
    decreases later
  {
    hide PrintReply, Acknowledgement;
    if later == [] {
      assert Acknowledgements(b, later) + [last] == [last];
      assert PrintReplies([last]) == PrintReply(last) + "";
    } else {
      OutputPrinted(b, later[1..], last);
      var rest := Acknowledgements(b, later[1..]) + [last];
      assert Acknowledgements(b, later) + [last] == [Acknowledgement(b, later[0])] + rest;
      PrintedStep(Acknowledgement(b, later[0]), rest);
    }
  }

  lemma StateNext(b: Behaviour, h: History, args: Args)
    ensures StateAfter(b, h + [args]) == Next(b, StateAfter(b, h), args)
  {
    assert (h + [args])[..|h|] == h;
  }

  /** A transaction up to and with EXEC: what is then executed, and what EXEC is answered. */
  function Finished(b: Behaviour, t: TxState, queue: seq<Args>, later: seq<Args>): TxState {
    TxState(if t.doomed || Refuses(b, later) then t.executed else t.executed + (queue + later), None, false)
  }

  function LastReply(b: Behaviour, t: TxState, queue: seq<Args>, later: seq<Args>): Reply {
    Results(b, t.(doomed := t.doomed || Refuses(b, later)), queue + later)
  }

  lemma LaterStep(b: Behaviour, t: TxState, queue: seq<Args>, later: seq<Args>)
    requires t.queue == Some(queue) && later != [] && IsPlain(later[0])
    ensures var next := Next(b, t, later[0]);
            && next.queue.Some? && next.executed == t.executed
            && Finished(b, next, next.queue.value, later[1..]) == Finished(b, t, queue, later)
            && LastReply(b, next, next.queue.value, later[1..]) == LastReply(b, t, queue, later)
  {
    RefusesStep(b, later);
    assert (queue + [later[0]]) + later[1..] == queue + later;
  }

  lemma CommandsStep(h: History, later: seq<Args>)
    requires later != []
    ensures (h + [later[0]]) + (later[1..] + [EXEC]) == h + (later + [EXEC])
    ensures later + [EXEC] == [later[0]] + (later[1..] + [EXEC])
  {
  }

  /** From within a transaction on: the commands `later` and EXEC. */
  lemma {:induction false} QueueThenExec(server: Server, b: Behaviour, h: History, queue: seq<Args>, later: seq<Args>)
    requires Transacts(server, b) && StateAfter(b, h).queue == Some(queue)
    requires forall i :: 0 <= i < |later| ==> IsPlain(later[i])
    ensures var t := StateAfter(b, h);
            && PrintReplies(Replies(server, h, later + [EXEC])) == Output(b, later, LastReply(b, t, queue, later))
            && StateAfter(b, h + (later + [EXEC])) == Finished(b, t, queue, later)
    decreases later
  {
    hide PrintReply, Finished, LastReply;
    if later == [] {
      LastStep(server, b, h, queue);
    } else {
      var args := later[0];
      var next := Next(b, StateAfter(b, h), args);
      StateNext(b, h, args);
      LaterStep(b, StateAfter(b, h), queue, later);
      QueueThenExec(server, b, h + [args], next.queue.value, later[1..]);
      CommandsStep(h, later);
      RepliesStep(server, h, args, later[1..] + [EXEC]);
      PrintedStep(server(h, args), Replies(server, h + [args], later[1..] + [EXEC]));
    }
  }

  lemma LastStep(server: Server, b: Behaviour, h: History, queue: seq<Args>)
    requires Transacts(server, b) && StateAfter(b, h).queue == Some(queue)
    ensures var t := StateAfter(b, h);
            && PrintReplies(Replies(server, h, [] + [EXEC])) == Output(b, [], LastReply(b, t, queue, []))
            && StateAfter(b, h + ([] + [EXEC])) == Finished(b, t, queue, [])
  {
    hide PrintReply;
    assert [] + [EXEC] == [EXEC] && queue + [] == queue;
    StateNext(b, h, EXEC);
    var reply := server(h, EXEC);
    assert Replies(server, h, [EXEC]) == [reply];
    assert PrintReplies([reply]) == PrintReply(reply) + "";
  }

  /** A whole transaction: all commands are executed, or none. */
  lemma Transaction(server: Server, b: Behaviour, h: History, commands: seq<Args>)
    requires Transacts(server, b) && StateAfter(b, h).queue == None
    requires forall i :: 0 <= i < |commands| ==> IsPlain(commands[i])
    ensures var executed := StateAfter(b, h).executed;
            var whole := [MULTI] + (commands + [EXEC]);
            var last := if Refuses(b, commands) then Err(ABORTED) else Array(Replies(b.base, executed, commands));
            && PrintReplies(Replies(server, h, whole)) == PrintReply(Status("OK")) + Output(b, commands, last)
            && StateAfter(b, h + whole)
                == TxState(if Refuses(b, commands) then executed else executed + commands, None, false)
  {
    hide PrintReply, Output, StateAfter, Next, Transacts, PrintReplies, Replies, Refuses;
    var t := StateAfter(b, h);
    StateNext(b, h, MULTI);
    MultiIsOk(server, b, h);
    QueueThenExec(server, b, h + [MULTI], [], commands);
    NothingQueued(h, commands);
    RepliesStep(server, h, MULTI, commands + [EXEC]);
    PrintedStep(Status("OK"), Replies(server, h + [MULTI], commands + [EXEC]));
  }

  lemma MultiIsOk(server: Server, b: Behaviour, h: History)
    requires Transacts(server, b) && StateAfter(b, h).queue == None
    ensures server(h, MULTI) == Status("OK")
    ensures Next(b, StateAfter(b, h), MULTI) == TxState(StateAfter(b, h).executed, Some([]), false)
  {
    assert server(h, MULTI) == Respond(b, StateAfter(b, h), MULTI);
  }

  lemma NothingQueued(h: History, commands: seq<Args>)
    ensures [] + commands == commands
    ensures (h + [MULTI]) + (commands + [EXEC]) == h + ([MULTI] + (commands + [EXEC]))
  {
  }
}
