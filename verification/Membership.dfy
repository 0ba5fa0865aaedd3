/** The ZooKeeper client's membership lists: fetched children are parsed into hosts,
    compared with the hosts known before, and the differences are reported. */
module Membership {
  import opened Wrappers
  import opened Decimal
  import opened Strings

  datatype HostInfo = HostInfo(name: string, ip: string, port: nat)

  const PORTS: nat := 0x1_0000

  // ---------------------------------------------------------------- splitting

  function SkipDelimiters(s: string, delimiters: string): (t: string)
    ensures |t| <= |s| && (t != "" ==> t[0] !in delimiters)
    ensures forall c <- t :: c in s
  {
    if s == "" || s[0] !in delimiters then s else SkipDelimiters(s[1..], delimiters)
  }

  function TokenLength(s: string, delimiters: string): (n: nat)
    ensures n <= |s| && (forall c <- s[..n] :: c !in delimiters) && (n < |s| ==> s[n] in delimiters)
  {
    if s == "" || s[0] in delimiters then 0
    else
      assert forall n: nat :: n < |s| ==> s[..n + 1] == [s[0]] + s[1..][..n];
      1 + TokenLength(s[1..], delimiters)
  }

  /** The maximal pieces without delimiters; there are no empty ones. */
  function Tokens(s: string, delimiters: string): (tokens: seq<string>)
    ensures forall t <- tokens :: t != "" && (forall c <- t :: c in s && c !in delimiters)
    decreases |s|
  {
    var rest := SkipDelimiters(s, delimiters);
    if rest == "" then []
    else
      var n := TokenLength(rest, delimiters);
      [rest[..n]] + Tokens(rest[n..], delimiters)
  }

  /** strtok_r over a copy of the text. */
  method SplitString(source: string, delimiters: string) returns (tokens: seq<string>)
    ensures tokens == Tokens(UntilNul(source), delimiters)
  {
    hide SkipDelimiters, TokenLength, UntilNul;
    var buffer := UntilNul(source);
    tokens := [];
    while buffer != ""
      invariant tokens + Tokens(buffer, delimiters) == Tokens(UntilNul(source), delimiters)
      decreases |buffer|
    {
      var rest := SkipDelimiters(buffer, delimiters);
      if rest == "" {
        assert tokens + [] == tokens;
        return;
      }
      var n := TokenLength(rest, delimiters);
      assert tokens + ([rest[..n]] + Tokens(rest[n..], delimiters))
          == (tokens + [rest[..n]]) + Tokens(rest[n..], delimiters);
      tokens, buffer := tokens + [rest[..n]], rest[n..];
    }
    assert tokens + [] == tokens;
  }

  /** A token up to a delimiter or the end. */
  lemma FirstToken(token: string, rest: string, delimiters: string)
    requires token != "" && (forall c <- token :: c !in delimiters) && (rest == "" || rest[0] in delimiters)
    ensures Tokens(token + rest, delimiters) == [token] + Tokens(rest, delimiters)
  {
    var s := token + rest;
    assert s[0] == token[0] && token[0] in token;
    assert SkipDelimiters(s, delimiters) == s;
    TokenLengthIs(token, rest, delimiters);
    assert s[..|token|] == token && s[|token|..] == rest;
  }

  lemma {:induction false} TokenLengthIs(token: string, rest: string, delimiters: string)
    requires (forall c <- token :: c !in delimiters) && (rest == "" || rest[0] in delimiters)
    ensures TokenLength(token + rest, delimiters) == |token|
  {
    if token == "" {
      assert token + rest == rest;
    } else {
      assert token[0] in token && (token + rest)[1..] == token[1..] + rest;
      TokenLengthIs(token[1..], rest, delimiters);
    }
  }

  lemma SkipsFirst(d: char, s: string, delimiters: string)
    requires d in delimiters
    ensures Tokens([d] + s, delimiters) == Tokens(s, delimiters)
  {
    assert ([d] + s)[1..] == s;
  }

  // ---------------------------------------------------------------- host paths

  predicate IsSpace(c: char) {
    c == ' ' || ('\t' <= c <= '\r')
  }

  function LeadingDigits(s: string): (digits: string)
    ensures digits <= s && AllDigits(digits)
  {
    if s == "" || !IsDigit(s[0]) then "" else [s[0]] + LeadingDigits(s[1..])
  }

  /** White space, a sign, and then digits up to the first other character. */
  function Atoi(s: string): int
    decreases |s|
  {
    if s != "" && IsSpace(s[0]) then Atoi(s[1..])
    else if s != "" && s[0] == '-' then 0 - DigitsValue(LeadingDigits(s[1..])) as int
    else DigitsValue(LeadingDigits(if s != "" && s[0] == '+' then s[1..] else s))
  }

  /** None stands for a failed assertion. */
  function ParsedHost(path: string): (r: Option<HostInfo>)
    ensures r.Some? ==> r.value.port < PORTS
  {
    var parts := Tokens(UntilNul(path), "/");
    if |parts| != 2 then None
    else
      var fields := Tokens(UntilNul(parts[1]), ":");
      if |fields| != 2 then None
      else Some(HostInfo(parts[0], fields[0], Atoi(fields[1]) % PORTS))
  }

  method ParseHostInfo(path: string) returns (r: Option<HostInfo>)
    ensures r == ParsedHost(path)
  {
    var parts := SplitString(path, "/");
    if |parts| != 2 {
      return None;
    }
    var fields := SplitString(parts[1], ":");
    if |fields| != 2 {
      return None;
    }
    r := Some(HostInfo(parts[0], fields[0], Atoi(fields[1]) % PORTS));
  }

  function AddrInfo(info: HostInfo): string {
    info.ip + ":" + Digits(info.port)
  }

  function HostPath(info: HostInfo): string {
    "/" + info.name + "/" + AddrInfo(info)
  }

  /** Names without a slash, and addresses without a slash or a colon; none is empty. */
  predicate Separable(info: HostInfo) {
    && info.name != "" && '/' !in info.name && '\0' !in info.name
    && info.ip != "" && '/' !in info.ip && ':' !in info.ip && '\0' !in info.ip
  }

  lemma {:induction false} AllLeading(s: string)
    requires AllDigits(s)
    ensures LeadingDigits(s) == s
  {
    if s != "" {
      AllLeading(s[1..]);
    }
  }

  lemma AtoiPrinted(n: nat)
    ensures Atoi(Digits(n)) == n
  {
    assert IsDigit(Digits(n)[0]);
    AllLeading(Digits(n));
    DigitsParsed(n);
  }

  lemma {:induction false} LeadingStops(digits: string, rest: string)
    requires AllDigits(digits) && (rest != "" ==> !IsDigit(rest[0]))
    ensures LeadingDigits(digits + rest) == digits
  {
    if digits == "" {
      assert digits + rest == rest;
    } else {
      assert (digits + rest)[1..] == digits[1..] + rest;
      LeadingStops(digits[1..], rest);
    }
  }

  lemma {:induction false} WhiteIsSkipped(white: string, s: string)
    requires forall i :: 0 <= i < |white| ==> white[i] == ' ' || 9 <= white[i] as int <= 13
    ensures Atoi(white + s) == Atoi(s)
  {
    if white == "" {
      assert white + s == s;
    } else {
      assert (white + s)[1..] == white[1..] + s;
      WhiteIsSkipped(white[1..], s);
    }
  }

  /** White space and a sign may come first, and anything that is no digit after. */
  lemma AtoiReads(white: string, n: nat, rest: string)
    requires forall i :: 0 <= i < |white| ==> white[i] == ' ' || 9 <= white[i] as int <= 13
    requires rest != "" ==> !IsDigit(rest[0])
    ensures Atoi(white + (Digits(n) + rest)) == n
    ensures Atoi(white + ("+" + (Digits(n) + rest))) == n
    ensures Atoi(white + ("-" + (Digits(n) + rest))) == 0 - n as int
  {
    hide *;
    var s := Digits(n) + rest;
    WhiteIsSkipped(white, s);
    WhiteIsSkipped(white, "+" + s);
    WhiteIsSkipped(white, "-" + s);
    SignedIsRead(n, rest);
  }

  lemma SignedIsRead(n: nat, rest: string)
    requires rest != "" ==> !IsDigit(rest[0])
    ensures var s := Digits(n) + rest; Atoi(s) == Atoi("+" + s) == n && Atoi("-" + s) == 0 - n as int
  {
    hide Digits, DigitsValue, LeadingDigits;
    var s := Digits(n) + rest;
    LeadingStops(Digits(n), rest);
    DigitsParsed(n);
    assert IsDigit(Digits(n)[0]) && s[0] == Digits(n)[0];
    assert ("+" + s)[1..] == s && ("-" + s)[1..] == s;
  }

  lemma HostPathInText()
    ensures HostPath(HostInfo("chat", "10.0.0.1", 8080)) == "/" + "chat" + "/" + "10.0.0.1" + ":8080"
  {
    assert Digits(8) == "8";
    assert Digits(80) == "80";
    assert Digits(808) == "808";
    assert Digits(8080) == "8080";
  }

  /** A port is kept in sixteen bits. */
  lemma PortsWrap(info: HostInfo)
    requires Separable(info)
    ensures ParsedHost(HostPath(info)) == Some(info.(port := info.port % 65536))
  {
    hide Tokens, Atoi;
    DigitsOnly(info.port);
    var addr := AddrInfo(info);
    assert '/' !in addr && '\0' !in addr && '\0' !in HostPath(info);
    PathParsed(info.name, addr);
    AddrParsed(info.ip, info.port);
    AtoiPrinted(info.port);
  }

  lemma DigitsOnly(n: nat)
    ensures forall c <- Digits(n) :: IsDigit(c)
  {
  }

  lemma LastToken(token: string, delimiters: string)
    requires token != "" && forall c <- token :: c !in delimiters
    ensures Tokens(token, delimiters) == [token]
  {
    assert token + "" == token;
    FirstToken(token, "", delimiters);
  }

  lemma AddrParsed(ip: string, port: nat)
    requires ip != "" && ':' !in ip
    ensures Tokens(ip + ":" + Digits(port), ":") == [ip, Digits(port)]
  {
    hide Tokens;
    DigitsOnly(port);
    LastToken(Digits(port), ":");
    SkipsFirst(':', Digits(port), ":");
    assert ip + ":" + Digits(port) == ip + ([':'] + Digits(port));
    FirstToken(ip, [':'] + Digits(port), ":");
  }

  lemma PathParsed(name: string, addr: string)
    requires name != "" && '/' !in name && addr != "" && '/' !in addr
    ensures Tokens("/" + name + "/" + addr, "/") == [name, addr]
  {
    hide Tokens;
    LastToken(addr, "/");
    SkipsFirst('/', addr, "/");
    FirstToken(name, ['/'] + addr, "/");
    SkipsFirst('/', name + (['/'] + addr), "/");
    assert "/" + name + "/" + addr == ['/'] + (name + (['/'] + addr));
  }

  /** A host's path is read back as the host, for these names and addresses and no others. */
  lemma HostPathRoundTrip(info: HostInfo)
    requires info.port < PORTS
    ensures ParsedHost(HostPath(info)) == Some(info) <==> Separable(info)
  {
    hide Tokens, Atoi;
    if Separable(info) {
      DigitsOnly(info.port);
      var addr := AddrInfo(info);
      assert '/' !in addr && '\0' !in addr && '\0' !in HostPath(info);
      PathParsed(info.name, addr);
      AddrParsed(info.ip, info.port);
      AtoiPrinted(info.port);
    }
    if ParsedHost(HostPath(info)) == Some(info) {
      var parts := Tokens(UntilNul(HostPath(info)), "/");
      assert info.name in parts && parts[1] in parts;
      var fields := Tokens(UntilNul(parts[1]), ":");
      assert info.ip in fields;
      assert forall c <- info.ip :: c in parts[1];
    }
  }

  // ---------------------------------------------------------------- differences

  /** What is in `xs` and not in `ys`, in order. */
  function Missing(xs: seq<HostInfo>, ys: seq<HostInfo>): (missing: seq<HostInfo>)
    ensures forall x :: x in missing <==> x in xs && x !in ys
  {
    if xs == [] then []
    else
      assert forall x :: x in xs <==> x in xs[..|xs| - 1] || x == xs[|xs| - 1];
      Missing(xs[..|xs| - 1], ys) + if xs[|xs| - 1] in ys then [] else [xs[|xs| - 1]]
  }

  /** The order is kept, and so are repetitions. */
  lemma MissingInOrder(xs: seq<HostInfo>, x: HostInfo, ys: seq<HostInfo>)
    ensures Missing([], ys) == [] && Missing([x], ys) == if x in ys then [] else [x]
    ensures Missing(xs + [x], ys) == Missing(xs, ys) + Missing([x], ys)
  {
    assert (xs + [x])[..|xs|] == xs;
    assert [x][..0] == [];
  }

  method CompareHostInfo(new': seq<HostInfo>, old': seq<HostInfo>)
      returns (added: seq<HostInfo>, deleted: seq<HostInfo>)
    ensures added == Missing(new', old') && deleted == Missing(old', new')
  {
    added := OneWay(new', old');
    deleted := OneWay(old', new');
  }

  /** One of the two nested loops. */
  method OneWay(xs: seq<HostInfo>, ys: seq<HostInfo>) returns (missing: seq<HostInfo>)
    ensures missing == Missing(xs, ys)
  {
    missing := [];
    for i := 0 to |xs|
      invariant missing == Missing(xs[..i], ys)
    {
      var absent := true;
      var j := 0;
      while j < |ys|
        invariant 0 <= j <= |ys| && absent
        invariant xs[i] !in ys[..j]
      {
        if xs[i] == ys[j] {
          absent := false;
          break;
        }
        j := j + 1;
      }
      assert absent <==> xs[i] !in ys by {
        if absent {
          assert ys[..j] == ys;
        } else {
          assert ys[j] in ys;
        }
      }
      if absent {
        missing := missing + [xs[i]];
      }
      assert xs[..i + 1][..i] == xs[..i];
    }
    assert xs[..|xs|] == xs;
  }

  // ---------------------------------------------------------------- the client

  datatype Operation = Add | Del

  /** One call of a path's callback. */
  datatype Event = Event(path: string, hosts: seq<HostInfo>, operation: Operation)

  ghost function SetOf(hosts: seq<HostInfo>): set<HostInfo> {
    set h | h in hosts
  }

  /** What a subscriber of `path` holds that adds and removes what it is told. */
  ghost function View(log: seq<Event>, path: string): set<HostInfo> {
    if log == [] then {}
    else
      var before, e := View(log[..|log| - 1], path), log[|log| - 1];
      if e.path != path then before
      else if e.operation == Add then before + SetOf(e.hosts)
      else before - SetOf(e.hosts)
  }

  /** Subscribers add and remove what they are told. */
  lemma ViewAfter(log: seq<Event>, path: string, hosts: seq<HostInfo>, h: HostInfo)
    ensures View([], path) == {}
    ensures h in View(log + [Event(path, hosts, Add)], path) <==> h in View(log, path) || h in hosts
    ensures h in View(log + [Event(path, hosts, Del)], path) <==> h in View(log, path) && h !in hosts
  {
    assert (log + [Event(path, hosts, Add)])[..|log|] == log;
    assert (log + [Event(path, hosts, Del)])[..|log|] == log;
  }

  /** No host is added that is there already, and none is removed that is not. */
  ghost predicate Clean(log: seq<Event>) {
    log != [] ==>
      var before, e := log[..|log| - 1], log[|log| - 1];
      && Clean(before)
      && if e.operation == Add then SetOf(e.hosts) !! View(before, e.path) else SetOf(e.hosts) <= View(before, e.path)
  }

  /** Each event of a clean log adds only what is not there, or removes only what is. */
  lemma {:induction false} CleanEvent(log: seq<Event>, i: nat)
    requires Clean(log) && i < |log|
    ensures forall h <- log[i].hosts :: h in View(log[..i], log[i].path) <==> log[i].operation == Del
    decreases |log|
  {
    if i < |log| - 1 {
      assert log[..|log| - 1][..i] == log[..i];
      CleanEvent(log[..|log| - 1], i);
    }
  }

  lemma OneMore(log: seq<Event>, e: Event)
    ensures (log + [e])[..|log|] == log && (log + [e])[|log|] == e
  {
  }

  /** The callback is called only when there is something to tell. */
  function Events(path: string, hosts: seq<HostInfo>, operation: Operation): seq<Event> {
    if hosts == [] then [] else [Event(path, hosts, operation)]
  }

  /** The events that tell of a change of the hosts at `path`. */
  function Told(path: string, hosts: seq<HostInfo>, fetched: seq<HostInfo>): seq<Event> {
    if fetched != [] then Events(path, Missing(fetched, hosts), Add) + Events(path, Missing(hosts, fetched), Del)
    else Events(path, hosts, Del)
  }

  /** New hosts are told of first, in the order they were fetched, then the lost ones. */
  lemma ToldInOrder(path: string, hosts: seq<HostInfo>, fetched: seq<HostInfo>)
    ensures forall e <- Told(path, hosts, fetched) :: e.path == path && e.hosts != []
    ensures forall i, j :: 0 <= i < j < |Told(path, hosts, fetched)| ==>
              Told(path, hosts, fetched)[i].operation == Add && Told(path, hosts, fetched)[j].operation == Del
    ensures forall e <- Told(path, hosts, fetched) ::
              e.hosts == if e.operation == Add then Missing(fetched, hosts) else Missing(hosts, fetched)
  {
    hide Missing;
    if fetched == [] {
      NoneMissing(hosts);
      assert |Told(path, hosts, fetched)| <= 1;
    } else {
      var added, lost := Events(path, Missing(fetched, hosts), Add), Events(path, Missing(hosts, fetched), Del);
      assert |added| <= 1 && |lost| <= 1 && Told(path, hosts, fetched) == added + lost;
    }
  }

  lemma {:induction false} NoneMissing(xs: seq<HostInfo>)
    ensures Missing(xs, []) == xs
  {
    if xs != [] {
      NoneMissing(xs[..|xs| - 1]);
    }
  }

  function Changed(view: set<HostInfo>, hosts: set<HostInfo>, operation: Operation): set<HostInfo> {
    if operation == Add then view + hosts else view - hosts
  }

  ghost predicate Welcome(view: set<HostInfo>, hosts: set<HostInfo>, operation: Operation) {
    if operation == Add then hosts !! view else hosts <= view
  }

  /** An event leaves the subscribers of other paths alone. */
  lemma Tell(log: seq<Event>, path: string, hosts: seq<HostInfo>, operation: Operation)
    requires Clean(log) && Welcome(View(log, path), SetOf(hosts), operation)
    ensures var after := log + Events(path, hosts, operation);
            && Clean(after) && View(after, path) == Changed(View(log, path), SetOf(hosts), operation)
            && forall other :: other != path ==> View(after, other) == View(log, other)
  {
    if hosts == [] {
      assert log + [] == log;
    } else {
      OneMore(log, Event(path, hosts, operation));
    }
  }

  lemma Differences(hosts: seq<HostInfo>, fetched: seq<HostInfo>)
    ensures var added, deleted := SetOf(Missing(fetched, hosts)), SetOf(Missing(hosts, fetched));
            && Welcome(SetOf(hosts), added, Add)
            && Welcome(Changed(SetOf(hosts), added, Add), deleted, Del)
            && Changed(Changed(SetOf(hosts), added, Add), deleted, Del) == SetOf(fetched)
            && (fetched == [] ==> Welcome(SetOf(hosts), SetOf(hosts), Del))
            && (fetched == [] ==> Changed(SetOf(hosts), SetOf(hosts), Del) == SetOf(fetched))
  {
  }

  /** After being told, the subscriber holds what was fetched. */
  lemma ToldAll(log: seq<Event>, path: string, hosts: seq<HostInfo>, fetched: seq<HostInfo>)
    requires Clean(log) && View(log, path) == SetOf(hosts)
    ensures var after := log + Told(path, hosts, fetched);
            && Clean(after) && View(after, path) == SetOf(fetched)
            && forall other :: other != path ==> View(after, other) == View(log, other)
  {
    hide Clean, View, SetOf, Missing, Changed, Welcome, Events;
    Differences(hosts, fetched);
    if fetched == [] {
      Tell(log, path, hosts, Del);
    } else {
      var added, deleted := Missing(fetched, hosts), Missing(hosts, fetched);
      var middle := log + Events(path, added, Add);
      Tell(log, path, added, Add);
      Tell(middle, path, deleted, Del);
      assert log + (Events(path, added, Add) + Events(path, deleted, Del)) == middle + Events(path, deleted, Del);
    }
  }

  // ---------------------------------------------------------------- the client's state

  /** The hosts last fetched for every watched path, and what the callbacks were told. */
  datatype Watch = Watch(hosts: map<string, seq<HostInfo>>, log: seq<Event>)

  ghost predicate InStep(w: Watch) {
    Clean(w.log) && forall path :: View(w.log, path) == if path in w.hosts then SetOf(w.hosts[path]) else {}
  }

  function Updated(w: Watch, path: string, fetched: seq<HostInfo>): Watch {
    if path in w.hosts then Watch(w.hosts[path := fetched], w.log + Told(path, w.hosts[path], fetched)) else w
  }

  lemma UpdateKeepsStep(w: Watch, path: string, fetched: seq<HostInfo>)
    requires InStep(w)
    ensures InStep(Updated(w, path, fetched))
  {
    hide Clean, View, SetOf, Told;
    if path in w.hosts {
      ToldAll(w.log, path, w.hosts[path], fetched);
    }
  }

  datatype Fetch = Fetch(path: string, hosts: seq<HostInfo>)

  function Run(w: Watch, fetches: seq<Fetch>): Watch
    decreases fetches
  {
    if fetches == [] then w else Run(Updated(w, fetches[0].path, fetches[0].hosts), fetches[1..])
  }

  /** The hosts of the last fetch for a path. */
  function LastFetched(fetches: seq<Fetch>, path: string): (hosts: Option<seq<HostInfo>>)
    ensures hosts.Some? ==> exists i :: 0 <= i < |fetches| && fetches[i] == Fetch(path, hosts.value)
                                        && forall later :: i < later < |fetches| ==> fetches[later].path != path
    ensures hosts.None? ==> forall i :: 0 <= i < |fetches| ==> fetches[i].path != path
    decreases fetches
  {
    if fetches == [] then None
    else if LastFetched(fetches[1..], path).Some? then LastFetched(fetches[1..], path)
    else if fetches[0].path == path then Some(fetches[0].hosts)
    else None
  }

  /** Over any run, every subscriber holds exactly the hosts last fetched for its path. */
  lemma {:induction false} SubscribersInStep(w: Watch, fetches: seq<Fetch>, path: string)
    requires InStep(w) && path in w.hosts
    ensures var after := Run(w, fetches);
            && InStep(after) && Clean(after.log) && path in after.hosts
            && View(after.log, path)
                == SetOf(if LastFetched(fetches, path).Some? then LastFetched(fetches, path).value else w.hosts[path])
    decreases fetches
  {
    hide Clean, View, SetOf, Told;
    if fetches != [] {
      var next := Updated(w, fetches[0].path, fetches[0].hosts);
      UpdateKeepsStep(w, fetches[0].path, fetches[0].hosts);
      SubscribersInStep(next, fetches[1..], path);
    }
  }

  // ---------------------------------------------------------------- fetching

  /** A loop index of one byte. */
  type Uint8 = i: int | 0 <= i < 256

  function Increment(i: Uint8): Uint8 {
    if i == 255 then 0 else i + 1
  }

  function IndexAfter(turns: nat): Uint8 {
    if turns == 0 then 0 else Increment(IndexAfter(turns - 1))
  }

  lemma {:induction false} IndexAtFirst(turns: nat)
    requires turns <= 255
    ensures IndexAfter(turns) == turns
  {
    if turns > 0 {
      IndexAtFirst(turns - 1);
    }
  }

  /** The index gets past `count` exactly when that is less than 256. */
  lemma IndexGetsPast(count: nat)
    ensures (exists turns: nat :: IndexAfter(turns) >= count) <==> count <= 255
  {
    if count <= 255 {
      IndexAtFirst(count);
      assert IndexAfter(count) >= count;
    }
  }

  /** The children's host paths, or None when one of them cannot be parsed. */
  function ParsedHosts(path: string, children: seq<string>): (r: Option<seq<HostInfo>>)
    ensures r.Some? ==>
              && |r.value| == |children|
              && forall j :: 0 <= j < |children| ==> ParsedHost(path + "/" + children[j]) == Some(r.value[j])
    ensures r.None? <==> exists j :: 0 <= j < |children| && ParsedHost(path + "/" + children[j]).None?
  {
    if children == [] then Some([])
    else
      var before := ParsedHosts(path, children[..|children| - 1]);
      var last := ParsedHost(path + "/" + children[|children| - 1]);
      if before.Some? && last.Some? then Some(before.value + [last.value]) else None
  }

  /** The names of the children that hosts are registered under. */
  function AddrInfos(hosts: seq<HostInfo>): (children: seq<string>)
    ensures |children| == |hosts| && forall i :: 0 <= i < |hosts| ==> children[i] == AddrInfo(hosts[i])
  {
    seq(|hosts|, i requires 0 <= i < |hosts| => AddrInfo(hosts[i]))
  }

  /** What servers register is what is fetched: the same hosts in the same order. */
  lemma RegisteredIsFetched(name: string, hosts: seq<HostInfo>)
    requires |hosts| <= 255 && forall h <- hosts :: Separable(h) && h.name == name && h.port < 65536
    ensures Fetched("/" + name, Some(AddrInfos(hosts))) == Returns(hosts)
  {
    hide ParsedHost, Separable;
    var children := AddrInfos(hosts);
    forall j | 0 <= j < |hosts|
      ensures ParsedHost("/" + name + "/" + children[j]) == Some(hosts[j])
    {
      assert hosts[j] in hosts;
      HostPathRoundTrip(hosts[j]);
    }
    assert ParsedHosts("/" + name, children).Some?;
    assert ParsedHosts("/" + name, children).value == hosts;
  }

  /** The first child that cannot be parsed decides. */
  lemma {:induction false} UnparsedStays(path: string, children: seq<string>, n: nat)
    requires n <= |children| && ParsedHosts(path, children[..n]).None?
    ensures ParsedHosts(path, children).None?
    decreases |children| - n
  {
    if n < |children| {
      assert children[..n + 1][..n] == children[..n];
      UnparsedStays(path, children, n + 1);
    } else {
      assert children[..n] == children;
    }
  }

  /** How a call ends: it returns, an assertion fails, or it never does. */
  datatype Outcome<T> = Returns(value: T) | Aborts | Loops {
    function Plain(): Outcome<()> {
      match this
      case Returns(_) => Returns(())
      case Aborts => Aborts
      case Loops => Loops
    }
  }

  /** The copy of the fetched list; a failed fetch gives an empty one.  The loop is left for
      good once its index is back at the start: by IndexGetsPast it stays below the end. */
  method FetchChildren(answer: Option<seq<string>>) returns (children: Outcome<seq<string>>)
    ensures children == if answer.None? then Returns([])
                        else if |answer.value| > 255 then Loops
                        else Returns(answer.value)
  {
    if answer.None? {
      return Returns([]);
    }
    var list: seq<string> := [];
    var i: Uint8 := 0;
    while i < |answer.value|
      invariant 0 <= i <= |answer.value| && list == answer.value[..i]
      decreases |answer.value| - i
    {
      list := list + [answer.value[i]];
      i := Increment(i);
      if i == 0 {
        return Loops;
      }
    }
    assert answer.value[..i] == answer.value;
    children := Returns(list);
  }

  function Fetched(path: string, answer: Option<seq<string>>): Outcome<seq<HostInfo>> {
    if answer.Some? && |answer.value| > 255 then Loops
    else
      match ParsedHosts(path, if answer.Some? then answer.value else [])
      case None => Aborts
      case Some(hosts) => Returns(hosts)
  }

  method GetServerList(path: string, answer: Option<seq<string>>) returns (hosts: Outcome<seq<HostInfo>>)
    ensures hosts == Fetched(path, answer)
  {
    hide ParsedHost;
    var fetched := FetchChildren(answer);
    if fetched.Loops? {
      return Loops;
    }
    var children := fetched.value;
    var list: seq<HostInfo> := [];
    var i: Uint8 := 0;
    while i < |children|
      invariant 0 <= i <= |children| && ParsedHosts(path, children[..i]) == Some(list)
      decreases |children| - i
    {
      assert children[..i + 1][..i] == children[..i];
      var host := ParseHostInfo(path + "/" + children[i]);
      if host.None? {
        UnparsedStays(path, children, i + 1);
        return Aborts;
      }
      list := list + [host.value];
      i := Increment(i);
    }
    assert children[..i] == children;
    hosts := Returns(list);
  }

  class ZooClient {
    var hosts: map<string, seq<HostInfo>>    // vecHost of every path in _mapCallBack
    ghost var log: seq<Event>                // the calls of the callbacks

    ghost function Now(): Watch
      reads this
    {
      Watch(hosts, log)
    }

    constructor (paths: set<string>)
      ensures hosts.Keys == paths && log == [] && InStep(Now())
    {
      hosts := map path | path in paths :: [];
      log := [];
    }

    ghost method CallBack(path: string, list: seq<HostInfo>, operation: Operation)
      modifies `log
      ensures log == old(log) + [Event(path, list, operation)]
    {
      log := log + [Event(path, list, operation)];
    }

    /** `answer` is what the server returns for the children of `path`. */
    method UpdateServer(path: string, answer: Option<seq<string>>) returns (outcome: Outcome<()>)
      modifies this
      ensures outcome == if path in old(hosts) then Fetched(path, answer).Plain() else Returns(())
      ensures Now() == if path in old(hosts) && Fetched(path, answer).Returns?
                       then Updated(old(Now()), path, Fetched(path, answer).value) else old(Now())
    {
      hide ParsedHosts, Missing;
      if path !in hosts {
        return Returns(());
      }
      var list := GetServerList(path, answer);
      if !list.Returns? {
        return list.Plain();
      }
      if list.value != [] {
        var added, deleted := CompareHostInfo(list.value, hosts[path]);
        if added != [] {
          CallBack(path, added, Add);
        }
        if deleted != [] {
          CallBack(path, deleted, Del);
        }
      } else if hosts[path] != [] {
        CallBack(path, hosts[path], Del);
      }
      hosts := hosts[path := list.value];
      outcome := Returns(());
    }

    /** Every watched path is fetched again, as on a reconnect. */
    method Observer(answers: map<string, seq<string>>) returns (outcome: Outcome<()>)
      requires InStep(Now())
      modifies this
      ensures InStep(Now()) && hosts.Keys == old(hosts).Keys
      ensures outcome.Returns? <==> forall path <- old(hosts) :: Fetched(path, AnswerAt(answers, path)).Returns?
      ensures !outcome.Returns? ==>
                exists path <- old(hosts) :: outcome == Fetched(path, AnswerAt(answers, path)).Plain()
      ensures outcome.Returns? ==> forall path <- hosts ::
                hosts[path] == Fetched(path, AnswerAt(answers, path)).value && View(log, path) == SetOf(hosts[path])
    {
      hide Clean, View, SetOf, Fetched;
      var todo := hosts.Keys;
      FetchedEnds(hosts, answers);
      while todo != {}
        invariant InStep(Now()) && hosts.Keys == old(hosts).Keys && todo <= hosts.Keys
        invariant FetchedBut(hosts, answers, todo)
        decreases |todo|
      {
        var path :| path in todo;
        ghost var before := Now();
        outcome := UpdateServer(path, AnswerAt(answers, path));
        if !outcome.Returns? {
          return;
        }
        UpdateKeepsStep(before, path, Fetched(path, AnswerAt(answers, path)).value);
        FetchedMore(before.hosts, answers, todo, path);
        todo := todo - {path};
      }
      outcome := Returns(());
    }
  }

  /** The hosts are those fetched from `answers`, except under the paths in `todo`. */
  ghost predicate FetchedBut(hosts: map<string, seq<HostInfo>>, answers: map<string, seq<string>>, todo: set<string>) {
    forall path <- hosts :: path !in todo ==>
      Fetched(path, AnswerAt(answers, path)).Returns? && hosts[path] == Fetched(path, AnswerAt(answers, path)).value
  }

  lemma FetchedEnds(hosts: map<string, seq<HostInfo>>, answers: map<string, seq<string>>)
    ensures FetchedBut(hosts, answers, hosts.Keys)
  {
  }

  lemma FetchedMore(hosts: map<string, seq<HostInfo>>, answers: map<string, seq<string>>, todo: set<string>,
                    path: string)
    requires FetchedBut(hosts, answers, todo) && Fetched(path, AnswerAt(answers, path)).Returns?
    ensures FetchedBut(hosts[path := Fetched(path, AnswerAt(answers, path)).value], answers, todo - {path})
  {
  }

  function AnswerAt(answers: map<string, seq<string>>, path: string): Option<seq<string>> {
    if path in answers then Some(answers[path]) else None
  }
}
