/** One socket of the client with the server behind it.  A server is any function from
    the commands it has executed and the next one to its reply; the socket takes and
    delivers bytes in pieces of any size. */
module Connection {
  import opened Wrappers
  import opened Decimal
  import opened Strings
  import opened Resp

  type History = seq<Args>
  type Server = (History, Args) -> Reply

  // ---------------------------------------------------------------- the server's side

  /** The commands executed, the bytes of an unfinished request, and the bytes answered. */
  datatype Served = Served(history: History, request: string, output: string)

  function Answering(output: string, s: Served): Served {
    s.(output := output + s.output)
  }

  /** Executes every request that is complete. */
  function Serve(server: Server, history: History, request: string): (s: Served)
    decreases |request|
  {
    match ReadMulti(request)
    case NoTexts(_) => Served(history, request, "")
    case Texts(args, rest) => Answering(PrintReply(server(history, args)), Serve(server, history + [args], rest))
  }

  /** The replies to commands executed one after the other. */
  function Replies(server: Server, history: History, commands: seq<Args>): (rs: seq<Reply>)
    ensures |rs| == |commands|
    decreases commands
  {
    if commands == [] then []
    else [server(history, commands[0])] + Replies(server, history + [commands[0]], commands[1..])
  }

  lemma RepliesStep(server: Server, h: History, args: Args, later: seq<Args>)
    ensures Replies(server, h, [args] + later) == [server(h, args)] + Replies(server, h + [args], later)
  {
    assert ([args] + later)[1..] == later;
  }

  function Then(a: Served, b: Served): Served {
    Served(b.history, b.request, a.output + b.output)
  }

  /** It makes no difference where the bytes are cut. */
  lemma {:induction false} ServeMore(server: Server, history: History, x: string, y: string)
    ensures var a := Serve(server, history, x);
            Serve(server, history, x + y) == Then(a, Serve(server, a.history, a.request + y))
    decreases |x|
  {
    var r := ReadMulti(x);
    if r.Texts? {
      ReadMultiExtends(x, y);
      ServeMore(server, history + [r.texts], r.rest, y);
      ServeStep(server, history, x + y, r.texts, r.rest + y);
      Reassociate(PrintReply(server(history, r.texts)), Serve(server, history + [r.texts], r.rest), y, server);
    } else {
      var b := Serve(server, history, x + y);
      assert "" + b.output == b.output;
    }
  }

  lemma ServeStep(server: Server, history: History, request: string, args: Args, rest: string)
    requires ReadMulti(request) == Texts(args, rest)
    ensures Serve(server, history, request)
              == Answering(PrintReply(server(history, args)), Serve(server, history + [args], rest))
  {
  }

  lemma Reassociate(output: string, a: Served, y: string, server: Server)
    ensures var b := Serve(server, a.history, a.request + y);
            Answering(output, Then(a, b)) == Then(Answering(output, a), b)
  {
    var b := Serve(server, a.history, a.request + y);
    assert output + (a.output + b.output) == (output + a.output) + b.output;
  }

  /** Nothing complete is left unexecuted. */
  lemma {:induction false} ServeSettles(server: Server, history: History, request: string)
    ensures var s := Serve(server, history, request);
            Serve(server, s.history, s.request) == Served(s.history, s.request, "")
    decreases |request|
  {
    var r := ReadMulti(request);
    if r.Texts? {
      ServeSettles(server, history + [r.texts], r.rest);
    }
  }

  // ---------------------------------------------------------------- bytes under way

  /** Both directions of a connection: the server's side and the bytes not yet read. */
  datatype View = View(history: History, request: string, inbox: string)

  /** The server has received `data`. */
  function After(server: Server, v: View, data: string): View {
    var s := Serve(server, v.history, v.request + data);
    View(s.history, s.request, v.inbox + s.output)
  }

  /** Writing goes on where it stopped. */
  lemma AfterPieces(server: Server, start: View, message: string, total: nat, n: nat)
    requires total + n <= |message|
    ensures After(server, After(server, start, message[..total]), message[total..][..n])
         == After(server, start, message[..total + n])
  {
    AfterMore(server, start, message[..total], message[total..][..n]);
    assert message[..total] + message[total..][..n] == message[..total + n];
  }

  lemma AfterMore(server: Server, v: View, x: string, y: string)
    ensures After(server, After(server, v, x), y) == After(server, v, x + y)
  {
    hide Serve, ReadMulti;
    ServeMore(server, v.history, v.request + x, y);
    assert (v.request + x) + y == v.request + (x + y);
    var a := Serve(server, v.history, v.request + x);
    var b := Serve(server, a.history, a.request + y);
    assert v.inbox + (a.output + b.output) == (v.inbox + a.output) + b.output;
  }

  /** A request sent whole is executed and answered. */
  lemma ServeRequest(server: Server, history: History, args: Args)
    requires Sendable(args)
    ensures Serve(server, history, Request(args)) == Served(history + [args], "", PrintReply(server(history, args)))
  {
    RequestRoundTrip(args, "");
    assert Request(args) + "" == Request(args);
    assert Serve(server, history + [args], "") == Served(history + [args], "", "");
    assert PrintReply(server(history, args)) + "" == PrintReply(server(history, args));
  }

  lemma Appended(history: History, commands: seq<Args>)
    requires commands != []
    ensures (history + [commands[0]]) + commands[1..] == history + commands
  {
  }

  lemma ServeOneMore(server: Server, history: History, args: Args, later: string, rs: string, after: History)
    requires Sendable(args)
    requires Serve(server, history + [args], later) == Served(after, "", rs)
    ensures Serve(server, history, Request(args) + later) == Served(after, "", PrintReply(server(history, args)) + rs)
  {
    RequestRoundTrip(args, later);
    ServeStep(server, history, Request(args) + later, args, later);
  }

  /** So are several requests sent together. */
  lemma {:induction false} ServeRequests(server: Server, history: History, commands: seq<Args>)
    requires forall i :: 0 <= i < |commands| ==> Sendable(commands[i])
    ensures Serve(server, history, Requests(commands))
         == Served(history + commands, "", PrintReplies(Replies(server, history, commands)))
    decreases commands
  {
    if commands == [] {
      assert history + [] == history;
    } else {
      var args, later := commands[0], commands[1..];
      var rs := Replies(server, history + [args], later);
      ServeRequests(server, history + [args], later);
      Appended(history, commands);
      ServeOneMore(server, history, args, Requests(later), PrintReplies(rs), history + commands);
      assert Replies(server, history, commands)[1..] == rs;
    }
  }

  // ---------------------------------------------------------------- the client's side

  class Connection {
    const server: Server
    const reliable: bool     // neither write nor recv fails, and write takes at least one byte
    var history: History     // what the server has executed
    var request: string      // what it has received of the next request
    var inbox: string        // what it has sent and the client has not read
    var ready: nat           // how many of these bytes are known to have arrived

    ghost predicate Valid()
      reads this
    {
      ready <= |inbox| && Serve(server, history, request) == Served(history, request, "")
    }

    constructor (server: Server, reliable: bool)
      ensures Valid() && this.server == server && this.reliable == reliable
      ensures history == [] && request == "" && inbox == ""
    {
      this.server := server;
      this.reliable := reliable;
      history := [];
      request := "";
      inbox := "";
      ready := 0;
    }

    ghost function Now(): View
      reads this
    {
      View(history, request, inbox)
    }

    /** The server has received `data` and nothing else has happened. */
    twostate predicate Took(data: string)
      reads this
    {
      Now() == After(server, old(Now()), data) && ready == old(ready)
    }

    /** write(2) */
    method Write(data: string) returns (n: int)
      requires Valid() && data != ""
      modifies this
      ensures Valid() && -1 <= n <= |data| && (reliable ==> n > 0)
      ensures Took(data[..if n < 0 then 0 else n])
    {
      n :| -1 <= n <= |data| && (reliable ==> n > 0);
      assert request + "" == request && inbox + "" == inbox;
      if n > 0 {
        var s := Serve(server, history, request + data[..n]);
        ServeSettles(server, history, request + data[..n]);
        history, request, inbox := s.history, s.request, inbox + s.output;
      }
    }

    /** Writes until everything is written, or a write fails or writes nothing. */
    method AnetWrite(message: string) returns (total: int)
      requires Valid()
      modifies this
      ensures Valid() && -1 <= total <= |message| && (reliable ==> total == |message|)
      ensures total >= 0 ==> Took(message[..total])
      ensures total == -1 ==> exists n :: 0 <= n < |message| && Took(message[..n])
    {
      hide ReadMulti;
      total := 0;
      assert request + message[..0] == request && inbox + "" == inbox;
      ghost var start := Now();
      while total != |message|
        invariant Valid() && 0 <= total <= |message| && ready == old(ready)
        invariant Now() == After(server, start, message[..total])
        decreases |message| - total
      {
        var written := Write(message[total..]);
        AfterPieces(server, start, message, total, if written < 0 then 0 else written);
        if written == 0 {
          return;
        }
        if written == -1 {
          assert Took(message[..total]);
          return -1;
        }
        total := total + written;
      }
    }

    /** send_: only a failing write throws; one that stops early goes unnoticed. */
    method Send(message: string) returns (ok: bool)
      requires Valid()
      modifies this
      ensures Valid() && (reliable ==> ok && Took(message))
      ensures ok ==> exists n :: 0 <= n <= |message| && Took(message[..n])
    {
      var total := AnetWrite(message);
      ok := total != -1;
      assert message[..|message|] == message;
    }

    // ---------------------------------------------------------------- reading

    /** recv(2) with MSG_PEEK: some bytes that have arrived, which stay where they are. */
    method Peek(n: nat) returns (r: Option<string>)
      requires Valid() && n > 0
      modifies this`ready
      ensures Valid()
      ensures r.Some? ==> 0 < |r.value| <= n && |r.value| <= ready && r.value <= inbox
      ensures r.None? && reliable ==> inbox == ""
    {
      var fails: bool := *;
      if inbox == "" || (fails && !reliable) {
        return None;
      }
      var k: nat :| 0 < k <= n && k <= |inbox|;
      ready := if k < ready then ready else k;
      r := Some(inbox[..k]);
    }

    /** recv(2): some bytes; all that were asked for if so many are known to have arrived. */
    method Recv(n: nat) returns (r: Option<string>)
      requires Valid() && n > 0
      modifies this`inbox, this`ready
      ensures Valid()
      ensures r.Some? ==> 0 < |r.value| <= n && old(inbox) == r.value + inbox && (n <= old(ready) ==> |r.value| == n)
      ensures r.None? ==> inbox == old(inbox) && (reliable ==> inbox == "")
    {
      var fails: bool := *;
      if inbox == "" || (fails && !reliable) {
        return None;
      }
      var k: nat :| 0 < k <= n && k <= |inbox| && (n <= ready ==> k == n);
      r := Some(inbox[..k]);
      inbox := inbox[k..];
      ready := if k <= ready then ready - k else 0;
    }

    /** Exactly `count` bytes, or all there are; -1 and what was read when a read fails. */
    method AnetRead(count: nat) returns (total: int, buffer: string)
      requires Valid()
      modifies this`inbox, this`ready
      ensures Valid() && old(inbox) == buffer + inbox && |buffer| <= count
      ensures total == |buffer| || (total == -1 && !reliable)
      ensures reliable ==> total == if count <= |old(inbox)| then count else |old(inbox)|
    {
      total, buffer := 0, "";
      while total != count
        invariant Valid() && 0 <= total <= count && old(inbox) == buffer + inbox && total == |buffer|
        decreases count - total
      {
        var r := Recv(count - total);
        if r.None? {
          if inbox != "" {
            total := -1;
          }
          return;
        }
        total, buffer := total + |r.value|, buffer + r.value;
      }
    }

    method ReadN(n: int) returns (r: Result<string, Error>)
      requires Valid()
      modifies this`inbox, this`ready
      ensures Valid()
      ensures r.Success? ==> n >= 0 && Resp.ReadN(old(inbox), n) == Text(r.value, inbox)
      ensures r.Failure? && n < 0 ==> r.error == LengthError
      ensures r.Failure? && n >= 0 ==> r.error == ConnectionError && (reliable ==> Resp.ReadN(old(inbox), n).NoText?)
    {
      if n < 0 {
        return Failure(LengthError);
      }
      var buffer := "";
      while |buffer| != n
        invariant Valid() && old(inbox) == buffer + inbox && |buffer| <= n
        decreases n - |buffer|
      {
        var received := Recv(n - |buffer|);
        if received.None? {
          return Failure(ConnectionError);
        }
        buffer := buffer + received.value;
      }
      r := Success(buffer);
    }

    /** Through the first line feed.  `total` stays 0, so `maxSize` bounds nothing. */
    method ReadLine(maxSize: nat := 2048) returns (r: Result<string, Error>)
      requires Valid() && maxSize > 0
      modifies this`inbox, this`ready
      ensures Valid()
      ensures r.Success? ==> Resp.ReadLine(old(inbox)) == Line(r.value, inbox)
      ensures r.Failure? ==> r.error == ConnectionError && (reliable ==> Resp.ReadLine(old(inbox)) == NoLine)
    {
      hide Find, NoLineFeed, LineSoFar, Resp.ReadLine, TrimEnd;
      NothingRead();
      var total, line, found := 0, "", false;
      while total < maxSize && !found
        invariant Valid() && old(inbox) == line + inbox
        invariant LineSoFar(line, found)
        decreases |inbox|, !found
      {
        var peeked := Peek(64);
        if peeked.None? {
          if inbox == "" {
            LineNotFound(line, inbox, old(inbox));
          }
          return Failure(ConnectionError);
        }
        var eol := Find(peeked.value, '\n');
        LineGrows(line, peeked.value);
        assert peeked.value[..|peeked.value|] == peeked.value;
        var toRead := |peeked.value|;
        if eol < |peeked.value| {
          toRead := eol + 1;
          found := true;
        }
        ghost var piece := peeked.value[..toRead];
        line := line + peeked.value[..toRead];
        var received := Recv(toRead);
        if received.None? {
          return Failure(ConnectionError);
        }
        assert received.value == piece;
      }
      LineFound(line, inbox, old(inbox));
      r := Success(TrimEnd(line));
    }

    // ---------------------------------------------------------------- replies

    /** A line with a prefix and a number. */
    method RecvNumber(prefix: char) returns (r: Result<int, Error>)
      requires Valid()
      modifies this`inbox, this`ready
      ensures Valid()
      ensures r.Success? ==> ReadNumber(prefix, old(inbox)) == Got(r.value, inbox)
      ensures r.Failure? && (reliable || r.error != ConnectionError) ==>
                ReadNumber(prefix, old(inbox)) == NoInt(r.error)
    {
      hide Find, TrimEnd, ParseLong;
      var line := ReadLine();
      if line.Failure? {
        return Failure(line.error);
      }
      if line.value == "" || line.value[0] != prefix {
        return Failure(ProtocolError);
      }
      var n := ParseLong(line.value[1..]);
      if n.None? {
        return Failure(BadCast);
      }
      r := Success(n.value);
    }

    method RecvBulk() returns (r: Result<string, Error>)
      requires Valid()
      modifies this`inbox, this`ready
      ensures Valid()
      ensures r.Success? ==> ReadBulk(old(inbox)) == Text(r.value, inbox)
      ensures r.Failure? && (reliable || r.error != ConnectionError) ==> ReadBulk(old(inbox)) == NoText(r.error)
    {
      hide ReadNumber;
      var length := RecvNumber('$');
      if length.Failure? {
        return Failure(length.error);
      }
      if length.value == -1 {
        return Success(MISSING);
      }
      var data := ReadN(length.value + 2);
      if data.Failure? {
        return Failure(data.error);
      }
      if data.value == "" {
        return Failure(ProtocolError);
      }
      r := Success(if |data.value| >= 2 then data.value[..|data.value| - 2] else "");
    }

    /** The elements of a multi-bulk reply. */
    method RecvBulks(n: nat) returns (r: Result<seq<string>, Error>)
      requires Valid()
      modifies this`inbox, this`ready
      ensures Valid()
      ensures r.Success? ==> ReadBulks(old(inbox), n) == Texts(r.value, inbox)
      ensures r.Failure? && (reliable || r.error != ConnectionError) ==> ReadBulks(old(inbox), n) == NoTexts(r.error)
    {
      hide ReadBulk;
      var out: seq<string> := [];
      ghost var s := inbox;
      var i := 0;
      while i < n
        invariant Valid() && 0 <= i <= n
        invariant ReadBulks(s, n) == PrefixedAll(out, ReadBulks(inbox, n - i))
      {
        var text := RecvBulk();
        if text.Failure? {
          return Failure(text.error);
        }
        PrefixedOneMore(out, text.value, ReadBulks(inbox, n - i - 1));
        out := out + [text.value];
        i := i + 1;
      }
      r := Success(out);
    }

    method RecvMulti() returns (r: Result<seq<string>, Error>)
      requires Valid()
      modifies this`inbox, this`ready
      ensures Valid()
      ensures r.Success? ==> ReadMulti(old(inbox)) == Texts(r.value, inbox)
      ensures r.Failure? && (reliable || r.error != ConnectionError) ==> ReadMulti(old(inbox)) == NoTexts(r.error)
    {
      hide ReadNumber, ReadBulks;
      var length := RecvNumber('*');
      if length.Failure? {
        return Failure(length.error);
      }
      if length.value == -1 {
        return Failure(KeyError);
      }
      if length.value < 0 {
        return Failure(LengthError);
      }
      r := RecvBulks(length.value);
    }

    /** Adds the elements of a multi-bulk reply to `out`. */
    method RecvMultiSet(out: set<string>) returns (length: int, r: Result<set<string>, Error>)
      requires Valid()
      modifies this`inbox, this`ready
      ensures Valid()
      ensures var m := ReadMultiSet(old(inbox));
              && (r.Success? ==> m.Members? && r.value == out + m.members && inbox == m.rest && length == m.length)
              && (r.Failure? && (reliable || r.error != ConnectionError) ==> m == NoMembers(r.error))
    {
      hide ReadNumber, ReadBulks;
      length := 0;
      var count := RecvNumber('*');
      if count.Failure? {
        return length, Failure(count.error);
      }
      length := count.value;
      if length == -1 {
        return length, Failure(KeyError);
      }
      var texts := RecvBulks(if length < 0 then 0 else length);
      if texts.Failure? {
        return length, Failure(texts.error);
      }
      r := Success(out + set t | t in texts.value);
    }

    method RecvInt() returns (r: Result<int, Error>)
      requires Valid()
      modifies this`inbox, this`ready
      ensures Valid()
      ensures r.Success? ==> ReadNumber(':', old(inbox)) == Got(r.value, inbox)
      ensures r.Failure? && (reliable || r.error != ConnectionError) ==> ReadNumber(':', old(inbox)) == NoInt(r.error)
    {
      r := RecvNumber(':');
    }

    /** recv_single_line_reply_ */
    method RecvStatus() returns (r: Result<string, Error>)
      requires Valid()
      modifies this`inbox, this`ready
      ensures Valid()
      ensures r.Success? ==> ReadStatus(old(inbox)) == Text(r.value, inbox)
      ensures r.Failure? && (reliable || r.error != ConnectionError) ==> ReadStatus(old(inbox)) == NoText(r.error)
      ensures r == Failure(ProtocolError) ==>
                Resp.ReadLine(old(inbox)).Line? && inbox == Resp.ReadLine(old(inbox)).rest
    {
      hide Find, TrimEnd;
      var line := ReadLine();
      if line.Failure? {
        return Failure(line.error);
      }
      if line.value == "" || ERROR_PREFIX <= line.value || line.value[0] != '+' {
        return Failure(ProtocolError);
      }
      r := Success(line.value[1..]);
    }

    /** A line without the first `width` characters. */
    method RecvAfterPrefix(width: nat) returns (r: Result<string, Error>)
      requires Valid()
      modifies this`inbox, this`ready
      ensures Valid()
      ensures r.Success? ==> AfterPrefix(Resp.ReadLine(old(inbox)), width) == Text(r.value, inbox)
      ensures r.Failure? && (reliable || r.error != ConnectionError) ==>
                AfterPrefix(Resp.ReadLine(old(inbox)), width) == NoText(r.error)
    {
      hide Find, TrimEnd;
      var line := ReadLine();
      if line.Failure? {
        return Failure(line.error);
      }
      if |line.value| < width {
        return Failure(OutOfRange);
      }
      r := Success(line.value[width..]);
    }

    /** recv_generic_reply_ */
    method RecvReply() returns (r: Result<Answer, Error>)
      requires Valid()
      modifies this`inbox, this`ready
      ensures Valid()
      ensures r.Success? ==> ReadReply(old(inbox)) == Answered(r.value, inbox)
      ensures r.Failure? && (reliable || r.error != ConnectionError) ==> ReadReply(old(inbox)) == NoAnswer(r.error)
    {
      hide Resp.ReadLine, ReadNumber, ReadBulk, ReadMulti;
      var kind := Peek(1);
      if kind.None? {
        return Failure(ConnectionError);
      }
      match kind.value[0] {
        case '+' =>
          var text := RecvAfterPrefix(1);
          r := if text.Success? then Success(StatusAnswer(text.value)) else Failure(text.error);
        case '-' =>
          var text := RecvAfterPrefix(|ERROR_PREFIX|);
          r := if text.Success? then Success(ErrorAnswer(text.value)) else Failure(text.error);
        case ':' =>
          var n := RecvInt();
          r := if n.Success? then Success(IntAnswer(Narrow(n.value))) else Failure(n.error);
        case '$' =>
          var text := RecvBulk();
          r := if text.Success? then Success(BulkAnswer(text.value)) else Failure(text.error);
        case '*' =>
          var texts := RecvMulti();
          r := if texts.Success? then Success(MultiAnswer(texts.value)) else Failure(texts.error);
        case _ =>
          r := Failure(RuntimeError);
      }
    }
  }

  function PrefixedAll(texts: seq<string>, r: TextsRead): TextsRead {
    match r
    case NoTexts(e) => NoTexts(e)
    case Texts(more, rest) => Texts(texts + more, rest)
  }

  lemma PrefixedOneMore(texts: seq<string>, text: string, r: TextsRead)
    ensures PrefixedAll(texts, Prefixed(text, r)) == PrefixedAll(texts + [text], r)
  {
  }

  lemma NothingRead()
    ensures LineSoFar("", false)
  {
  }

  predicate NoLineFeed(s: string) {
    forall i :: 0 <= i < |s| ==> s[i] != '\n'
  }

  /** What has been read of the line: all of it, or nothing but its beginning. */
  predicate LineSoFar(line: string, found: bool) {
    if found then line != "" && line[|line| - 1] == '\n' && NoLineFeed(line[..|line| - 1]) else NoLineFeed(line)
  }

  lemma NoneInBoth(a: string, b: string)
    requires NoLineFeed(a) && NoLineFeed(b)
    ensures NoLineFeed(a + b)
  {
  }

  /** Reading on up to the first line feed, if there is one. */
  lemma LineGrows(line: string, peeked: string)
    requires LineSoFar(line, false)
    ensures var eol := Find(peeked, '\n');
            if eol < |peeked| then LineSoFar(line + peeked[..eol + 1], true) else LineSoFar(line + peeked, false)
  {
    var eol := Find(peeked, '\n');
    FindIsFirst(peeked, '\n', eol);
    NoneInBoth(line, peeked[..eol]);
    if eol < |peeked| {
      assert (line + peeked[..eol + 1])[..|line + peeked[..eol + 1]| - 1] == line + peeked[..eol];
    } else {
      assert peeked[..eol] == peeked;
    }
  }

  lemma LineFound(line: string, rest: string, s: string)
    requires s == line + rest && LineSoFar(line, true)
    ensures Resp.ReadLine(s) == Line(TrimEnd(line), rest)
  {
    var k := |line| - 1;
    forall i | 0 <= i < k
      ensures s[i] != '\n'
    {
      assert line[..k][i] == s[i];
    }
    FindIsFirst(s, '\n', k);
    assert s[..k + 1] == line && s[k + 1..] == rest;
  }

  lemma LineNotFound(line: string, rest: string, s: string)
    requires s == line + rest && LineSoFar(line, false) && rest == ""
    ensures Resp.ReadLine(s) == NoLine
  {
    FindIsFirst(s, '\n', |s|);
  }
}
