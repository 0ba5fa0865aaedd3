/** The Redis protocol as common/redisclient.h prints and reads it.  Every reader is
    a function from the bytes a connection will still deliver to what is read and
    what is left; the socket loops that read them are in Connection. */
module Resp {
  import opened Wrappers
  import opened Decimal
  import opened Strings

  type Args = seq<string>

  const CRLF := "\r\n"
  const MISSING := "**nonexistent-key**"
  const ERROR_PREFIX := "-ERR "

  /** What the client throws. */
  datatype Error =
    | ConnectionError
    | ProtocolError
    | KeyError
    | BadCast
    | LengthError
    | OutOfRange
    | RuntimeError

  // ---------------------------------------------------------------- requests

  function BulkString(arg: string): (s: string)
    ensures s != ""
  {
    "$" + Print(|arg|) + CRLF + arg + CRLF
  }

  function BulkStrings(args: seq<string>): string {
    if args == [] then "" else BulkString(args[0]) + BulkStrings(args[1..])
  }

  function ArrayHeader(n: nat): string {
    "*" + Print(n) + CRLF
  }

  /** A command as makecmd prints it. */
  function Request(args: Args): (s: string)
    ensures s != ""
  {
    ArrayHeader(|args|) + BulkStrings(args)
  }

  lemma RequestOfOne(word: string)
    ensures Request([word]) == "*" + Digits(1) + "\r\n$" + Digits(|word|) + "\r\n" + word + "\r\n"
  {
    hide Digits;
    var one, length := Digits(1), Digits(|word|);
    assert BulkStrings([word]) == BulkString(word) by {
      assert BulkStrings([word]) == BulkString(word) + BulkStrings([]);
    }
    Regrouped("*" + one, length, word);
    assert Request([word]) == ("*" + one + CRLF) + ("$" + length + CRLF + word + CRLF);
  }

  lemma Regrouped(head: string, length: string, word: string)
    ensures (head + CRLF) + ("$" + length + CRLF + word + CRLF) == head + "\r\n$" + length + "\r\n" + word + "\r\n"
  {
    assert CRLF + "$" == "\r\n$";
    var a, b := head + CRLF, length + CRLF + word + CRLF;
    assert "$" + length + CRLF + word + CRLF == "$" + b;
    assert a + ("$" + b) == head + (CRLF + "$") + b;
    assert head + "\r\n$" + b == head + "\r\n$" + length + "\r\n" + word + "\r\n";
  }

  function Requests(commands: seq<Args>): string {
    if commands == [] then "" else Request(commands[0]) + Requests(commands[1..])
  }

  // ---------------------------------------------------------------- lines

  predicate IsLineEnd(c: char) {
    c == '\r' || c == '\n'
  }

  /** Without the carriage returns and line feeds at its end. */
  function TrimEnd(s: string): string {
    if s == "" || !IsLineEnd(s[|s| - 1]) then s else TrimEnd(s[..|s| - 1])
  }

  lemma {:induction false} TrimEndKeeps(s: string)
    ensures TrimEnd(s) <= s && (TrimEnd(s) != "" ==> !IsLineEnd(TrimEnd(s)[|TrimEnd(s)| - 1]))
    ensures forall i :: |TrimEnd(s)| <= i < |s| ==> IsLineEnd(s[i])
  {
    if s != "" && IsLineEnd(s[|s| - 1]) {
      TrimEndKeeps(s[..|s| - 1]);
    }
  }

  datatype LineRead = Line(text: string, rest: string) | NoLine

  function ReadLine(s: string): (r: LineRead)
    ensures r.Line? ==> |r.rest| < |s|
  {
    var k := Find(s, '\n');
    if k == |s| then NoLine
    else Line(TrimEnd(s[..k + 1]), s[k + 1..])
  }

  /** A line's text can be told from its end. */
  predicate IsLineText(text: string) {
    '\n' !in text && (text != "" ==> text[|text| - 1] != '\r')
  }

  lemma TrimEndOf(text: string)
    requires IsLineText(text)
    ensures TrimEnd(text + CRLF) == text
  {
    if text != "" {
      assert text[|text| - 1] in text;
    }
    assert TrimEnd(text) == text;
    assert (text + "\r")[..|text|] == text;
    assert TrimEnd(text + "\r") == text;
    assert (text + CRLF)[..|text| + 1] == text + "\r";
  }

  lemma ReadLinePrinted(text: string, rest: string)
    requires IsLineText(text)
    ensures ReadLine(text + CRLF + rest) == Line(text, rest)
  {
    var s, k := text + CRLF + rest, |text| + 1;
    assert s[..k + 1] == text + CRLF && s[k + 1..] == rest;
    forall i | 0 <= i < k
      ensures s[i] != '\n'
    {
      assert i < |text| ==> text[i] in text;
    }
    FindIsFirst(s, '\n', k);
    TrimEndOf(text);
  }

  lemma ReadLineExtends(s: string, more: string)
    requires ReadLine(s).Line?
    ensures ReadLine(s + more) == Line(ReadLine(s).text, ReadLine(s).rest + more)
  {
    var k := Find(s, '\n');
    assert (s + more)[..k + 1] == s[..k + 1] && (s + more)[k + 1..] == s[k + 1..] + more;
    FindIsFirst(s, '\n', k);
    FindIsFirst(s + more, '\n', k);
  }

  // ---------------------------------------------------------------- numbers

  datatype IntRead = Got(value: int, rest: string) | NoInt(error: Error)

  /** A line of a prefix and a number; the empty line has no prefix. */
  function NumberLine(prefix: char, line: LineRead): (r: IntRead)
    ensures r.Got? ==> line.Line? && r.rest == line.rest && -TWO_63 <= r.value < TWO_63
  {
    match line
    case NoLine => NoInt(ConnectionError)
    case Line(text, rest) =>
      if text == "" || text[0] != prefix then NoInt(ProtocolError)
      else
        match ParseLong(text[1..])
        case None => NoInt(BadCast)
        case Some(n) => Got(n, rest)
  }

  function ReadNumber(prefix: char, s: string): (r: IntRead)
    ensures r.Got? ==> |r.rest| < |s| && -TWO_63 <= r.value < TWO_63
  {
    NumberLine(prefix, ReadLine(s))
  }

  lemma DigitsAreLineText(prefix: char, n: int)
    requires !IsLineEnd(prefix)
    ensures IsLineText([prefix] + Print(n)) && ([prefix] + Print(n))[1..] == Print(n)
  {
  }

  lemma ReadNumberPrinted(prefix: char, n: int, rest: string)
    requires !IsLineEnd(prefix) && -TWO_63 <= n < TWO_63
    ensures ReadNumber(prefix, [prefix] + Print(n) + CRLF + rest) == Got(n, rest)
  {
    DigitsAreLineText(prefix, n);
    ReadLinePrinted([prefix] + Print(n), rest);
    PrintedIsParsed(n);
  }

  lemma ReadNumberExtends(prefix: char, s: string, more: string)
    requires ReadNumber(prefix, s).Got?
    ensures ReadNumber(prefix, s + more) == Got(ReadNumber(prefix, s).value, ReadNumber(prefix, s).rest + more)
  {
    ReadLineExtends(s, more);
  }

  // ---------------------------------------------------------------- bulk strings

  datatype TextRead = Text(text: string, rest: string) | NoText(error: Error)

  /** The next `n` bytes. */
  function ReadN(s: string, n: nat): (r: TextRead)
    ensures r.Text? ==> |r.text| == n && |r.rest| <= |s|
  {
    if n <= |s| then Text(s[..n], s[n..]) else NoText(ConnectionError)
  }

  /** The two bytes after the data are dropped unseen. */
  function DropTwo(r: TextRead): TextRead {
    match r
    case NoText(e) => NoText(e)
    case Text(data, rest) =>
      if data == "" then NoText(ProtocolError)
      else Text(if |data| >= 2 then data[..|data| - 2] else "", rest)
  }

  function BulkBody(length: int, s: string): TextRead {
    if length == -1 then Text(MISSING, s)
    else if length + 2 < 0 then NoText(LengthError)
    else DropTwo(ReadN(s, length + 2))
  }

  function ReadBulk(s: string): (r: TextRead)
    ensures r.Text? ==> |r.rest| < |s|
  {
    match ReadNumber('$', s)
    case NoInt(e) => NoText(e)
    case Got(length, rest) => BulkBody(length, rest)
  }

  lemma ReadBulkPrinted(arg: string, rest: string)
    requires |arg| < TWO_63
    ensures ReadBulk(BulkString(arg) + rest) == Text(arg, rest)
  {
    var body := arg + CRLF + rest;
    assert BulkString(arg) + rest == "$" + Print(|arg|) + CRLF + body;
    ReadNumberPrinted('$', |arg|, body);
    assert body[..|arg| + 2] == arg + CRLF && body[|arg| + 2..] == rest;
    assert (arg + CRLF)[..|arg|] == arg;
  }

  lemma ReadBulkMissing(rest: string)
    ensures ReadBulk("$-1\r\n" + rest) == Text("**nonexistent-key**", rest)
  {
    ReadNumberPrinted('$', -1, rest);
    assert Digits(1) == "1";
    assert "$" + Print(-1) + CRLF + rest == "$-1\r\n" + rest;
  }

  lemma BulkBodyExtends(length: int, s: string, more: string)
    requires BulkBody(length, s).Text?
    ensures BulkBody(length, s + more) == Text(BulkBody(length, s).text, BulkBody(length, s).rest + more)
  {
  }

  lemma ReadBulkExtends(s: string, more: string)
    requires ReadBulk(s).Text?
    ensures ReadBulk(s + more) == Text(ReadBulk(s).text, ReadBulk(s).rest + more)
  {
    ReadNumberExtends('$', s, more);
    var r := ReadNumber('$', s);
    BulkBodyExtends(r.value, r.rest, more);
  }

  // ---------------------------------------------------------------- multi-bulk replies

  datatype TextsRead = Texts(texts: seq<string>, rest: string) | NoTexts(error: Error)

  function Prefixed(text: string, r: TextsRead): TextsRead {
    match r
    case NoTexts(e) => NoTexts(e)
    case Texts(texts, rest) => Texts([text] + texts, rest)
  }

  function ReadBulks(s: string, n: nat): (r: TextsRead)
    ensures r.Texts? ==> |r.texts| == n && |r.rest| <= |s|
    decreases n
  {
    if n == 0 then Texts([], s)
    else
      match ReadBulk(s)
      case NoText(e) => NoTexts(e)
      case Text(text, rest) => Prefixed(text, ReadBulks(rest, n - 1))
  }

  /** Into an empty vector, which cannot reserve a negative number of elements. */
  function ReadMulti(s: string): (r: TextsRead)
    ensures r.Texts? ==> |r.rest| < |s|
  {
    match ReadNumber('*', s)
    case NoInt(e) => NoTexts(e)
    case Got(length, rest) =>
      if length == -1 then NoTexts(KeyError)
      else if length < 0 then NoTexts(LengthError)
      else ReadBulks(rest, length)
  }

  datatype SetRead = Members(length: int, members: set<string>, rest: string) | NoMembers(error: Error)

  function Collected(length: int, r: TextsRead): SetRead {
    match r
    case NoTexts(e) => NoMembers(e)
    case Texts(texts, rest) => Members(length, (set t | t in texts), rest)
  }

  /** Into a set; nothing is reserved, and a negative length reads no elements. */
  function ReadMultiSet(s: string): SetRead {
    match ReadNumber('*', s)
    case NoInt(e) => NoMembers(e)
    case Got(length, rest) =>
      if length == -1 then NoMembers(KeyError)
      else Collected(length, ReadBulks(rest, if length < 0 then 0 else length))
  }

  /** Every argument is short enough for its length to be read back. */
  ghost predicate Sendable(args: Args) {
    |args| < TWO_63 && forall i :: 0 <= i < |args| ==> |args[i]| < TWO_63
  }

  lemma {:induction false} ReadBulksPrinted(args: seq<string>, rest: string)
    requires forall i :: 0 <= i < |args| ==> |args[i]| < TWO_63
    ensures ReadBulks(BulkStrings(args) + rest, |args|) == Texts(args, rest)
  {
    hide ReadBulk, BulkString;
    if args == [] {
      assert "" + rest == rest;
    } else {
      var tail := BulkStrings(args[1..]) + rest;
      assert BulkStrings(args) + rest == BulkString(args[0]) + tail;
      ReadBulkPrinted(args[0], tail);
      ReadBulksPrinted(args[1..], rest);
      assert [args[0]] + args[1..] == args;
    }
  }

  /** A printed command read back by the client's own multi-bulk reader. */
  lemma RequestRoundTrip(args: Args, rest: string)
    requires Sendable(args)
    ensures ReadMulti(Request(args) + rest) == Texts(args, rest)
  {
    var body := BulkStrings(args) + rest;
    assert Request(args) + rest == "*" + Print(|args|) + CRLF + body;
    ReadNumberPrinted('*', |args|, body);
    ReadBulksPrinted(args, rest);
  }

  lemma {:induction false} ReadBulksExtends(s: string, n: nat, more: string)
    requires ReadBulks(s, n).Texts?
    ensures ReadBulks(s + more, n) == Texts(ReadBulks(s, n).texts, ReadBulks(s, n).rest + more)
    decreases n
  {
    hide ReadBulk;
    if n > 0 {
      var first := ReadBulk(s);
      ReadBulkExtends(s, more);
      ReadBulksExtends(first.rest, n - 1, more);
      assert ReadBulks(s + more, n) == Prefixed(first.text, ReadBulks(first.rest + more, n - 1));
    }
  }

  lemma ReadMultiExtends(s: string, more: string)
    requires ReadMulti(s).Texts?
    ensures ReadMulti(s + more) == Texts(ReadMulti(s).texts, ReadMulti(s).rest + more)
  {
    ReadNumberExtends('*', s, more);
    ReadBulksExtends(ReadNumber('*', s).rest, ReadNumber('*', s).value, more);
  }

  // ---------------------------------------------------------------- replies

  /** What a server answers.  The line of an error starts with the error's kind. */
  datatype Reply =
    | Status(text: string)
    | Err(line: string)
    | Int(n: int)
    | Bulk(data: Option<string>)
    | Array(items: seq<Reply>)

  function PrintReply(r: Reply): (s: string)
    ensures s != ""
    decreases r, 0
  {
    match r
    case Status(text) => "+" + text + CRLF
    case Err(line) => "-" + line + CRLF
    case Int(n) => ":" + Print(n) + CRLF
    case Bulk(data) => if data.None? then "$-1" + CRLF else BulkString(data.value)
    case Array(items) => ArrayHeader(|items|) + PrintReplies(items)
  }

  function PrintReplies(rs: seq<Reply>): string
    decreases rs, 0
  {
    if rs == [] then "" else PrintReply(rs[0]) + PrintReplies(rs[1..])
  }

  lemma PrintedStep(r: Reply, rs: seq<Reply>)
    ensures PrintReplies([r] + rs) == PrintReply(r) + PrintReplies(rs)
  {
    assert ([r] + rs)[1..] == rs;
  }

  lemma {:induction false} PrintedEnd(rs: seq<Reply>, r: Reply)
    ensures PrintReplies(rs + [r]) == PrintReplies(rs) + PrintReply(r)
  {
    hide PrintReply;
    if rs == [] {
      assert [] + [r] == [r];
      assert PrintReplies([r]) == PrintReply(r) + "";
    } else {
      PrintedEnd(rs[1..], r);
      assert (rs + [r])[1..] == rs[1..] + [r];
    }
  }

  predicate IsBulk(r: Reply) {
    r.Bulk? && (r.data.Some? ==> |r.data.value| < TWO_63)
  }

  /** The replies that the generic reader is built for. */
  ghost predicate WellFormed(r: Reply) {
    match r
    case Status(text) => IsLineText(text)
    case Err(line) => IsLineText(line) && |line| >= 4
    case Int(n) => -TWO_63 <= n < TWO_63
    case Bulk(_) => IsBulk(r)
    case Array(items) => |items| < TWO_63 && forall i :: 0 <= i < |items| ==> IsBulk(items[i])
  }

  /** What the client hands to its caller. */
  datatype Answer =
    | StatusAnswer(text: string)
    | ErrorAnswer(text: string)
    | IntAnswer(n: int)
    | BulkAnswer(text: string)
    | MultiAnswer(texts: seq<string>)

  function TextOf(r: Reply): string {
    if r.Bulk? && r.data.Some? then r.data.value else MISSING
  }

  function TextsOf(rs: seq<Reply>): (texts: seq<string>)
    ensures |texts| == |rs| && forall i :: 0 <= i < |rs| ==> texts[i] == TextOf(rs[i])
  {
    seq(|rs|, i requires 0 <= i < |rs| => TextOf(rs[i]))
  }

  /** A reply as the caller sees it; integers are kept in 32 bits. */
  function Seen(r: Reply): Answer {
    match r
    case Status(text) => StatusAnswer(text)
    case Err(line) => ErrorAnswer(if |line| >= 4 then line[4..] else "")
    case Int(n) => IntAnswer(Narrow(n))
    case Bulk(_) => BulkAnswer(TextOf(r))
    case Array(items) => MultiAnswer(TextsOf(items))
  }

  datatype AnswerRead = Answered(answer: Answer, rest: string) | NoAnswer(error: Error)

  /** A status line without its prefix, whatever it says. */
  function AfterPrefix(line: LineRead, width: nat): (r: TextRead)
  {
    match line
    case NoLine => NoText(ConnectionError)
    case Line(text, rest) => if |text| < width then NoText(OutOfRange) else Text(text[width..], rest)
  }

  function StatusInto(r: TextRead): AnswerRead {
    match r
    case NoText(e) => NoAnswer(e)
    case Text(text, rest) => Answered(StatusAnswer(text), rest)
  }

  function ErrorInto(r: TextRead): AnswerRead {
    match r
    case NoText(e) => NoAnswer(e)
    case Text(text, rest) => Answered(ErrorAnswer(text), rest)
  }

  function IntInto(r: IntRead): AnswerRead {
    match r
    case NoInt(e) => NoAnswer(e)
    case Got(n, rest) => Answered(IntAnswer(Narrow(n)), rest)
  }

  function BulkInto(r: TextRead): AnswerRead {
    match r
    case NoText(e) => NoAnswer(e)
    case Text(text, rest) => Answered(BulkAnswer(text), rest)
  }

  function MultiInto(r: TextsRead): AnswerRead {
    match r
    case NoTexts(e) => NoAnswer(e)
    case Texts(texts, rest) => Answered(MultiAnswer(texts), rest)
  }

  /** The kind of the reply is peeked at, then the whole of it is read. */
  function ReadReply(s: string): AnswerRead {
    if s == "" then NoAnswer(ConnectionError)
    else if s[0] == '+' then StatusInto(AfterPrefix(ReadLine(s), 1))
    else if s[0] == '-' then ErrorInto(AfterPrefix(ReadLine(s), |ERROR_PREFIX|))
    else if s[0] == ':' then IntInto(ReadNumber(':', s))
    else if s[0] == '$' then BulkInto(ReadBulk(s))
    else if s[0] == '*' then MultiInto(ReadMulti(s))
    else NoAnswer(RuntimeError)
  }

  /** recv_single_line_reply_ */
  function ReadStatus(s: string): TextRead {
    match ReadLine(s)
    case NoLine => NoText(ConnectionError)
    case Line(text, rest) =>
      if text == "" || ERROR_PREFIX <= text || text[0] != '+' then NoText(ProtocolError)
      else Text(text[1..], rest)
  }

  datatype AnswersRead = Answers(answers: seq<Answer>, rest: string) | NoAnswers(error: Error)

  function PrefixedAnswer(a: Answer, r: AnswersRead): AnswersRead {
    match r
    case NoAnswers(e) => NoAnswers(e)
    case Answers(answers, rest) => Answers([a] + answers, rest)
  }

  /** `n` replies, one after the other. */
  function ReadReplies(s: string, n: nat): AnswersRead
    decreases n
  {
    if n == 0 then Answers([], s)
    else
      match ReadReply(s)
      case NoAnswer(e) => NoAnswers(e)
      case Answered(a, rest) => PrefixedAnswer(a, ReadReplies(rest, n - 1))
  }

  function SeenAll(rs: seq<Reply>): (answers: seq<Answer>)
    ensures |answers| == |rs| && forall i :: 0 <= i < |rs| ==> answers[i] == Seen(rs[i])
  {
    seq(|rs|, i requires 0 <= i < |rs| => Seen(rs[i]))
  }

  lemma ReadItemPrinted(item: Reply, rest: string)
    requires IsBulk(item)
    ensures ReadBulk(PrintReply(item) + rest) == Text(TextOf(item), rest)
  {
    if item.data.Some? {
      ReadBulkPrinted(item.data.value, rest);
    } else {
      ReadBulkMissing(rest);
      assert PrintReply(item) == "$-1\r\n";
    }
  }

  lemma TextsOfNext(items: seq<Reply>)
    requires items != []
    ensures [TextOf(items[0])] + TextsOf(items[1..]) == TextsOf(items)
  {
    hide *;
  }

  lemma {:induction false} ReadItemsPrinted(items: seq<Reply>, rest: string)
    requires forall i :: 0 <= i < |items| ==> IsBulk(items[i])
    ensures ReadBulks(PrintReplies(items) + rest, |items|) == Texts(TextsOf(items), rest)
  {
    hide ReadBulk, PrintReply, TextOf, IsBulk;
    if items == [] {
      assert "" + rest == rest;
    } else {
      var tail := PrintReplies(items[1..]) + rest;
      assert PrintReplies(items) + rest == PrintReply(items[0]) + tail;
      ReadItemPrinted(items[0], tail);
      ReadItemsPrinted(items[1..], rest);
      TextsOfNext(items);
    }
  }

  /** The bulks of an array, read after its header, with or without interpretation. */
  lemma ReadMultiPrinted(items: seq<Reply>, rest: string)
    requires |items| < TWO_63 && forall i :: 0 <= i < |items| ==> IsBulk(items[i])
    ensures ReadMulti(PrintReply(Array(items)) + rest) == Texts(TextsOf(items), rest)
  {
    var body := PrintReplies(items) + rest;
    assert PrintReply(Array(items)) + rest == "*" + Print(|items|) + CRLF + body;
    ReadNumberPrinted('*', |items|, body);
    ReadItemsPrinted(items, rest);
  }

  lemma ReadStatusPrinted(text: string, rest: string)
    requires IsLineText(text)
    ensures ReadStatus(PrintReply(Status(text)) + rest) == Text(text, rest)
  {
    var line := "+" + text;
    assert PrintReply(Status(text)) + rest == line + CRLF + rest;
    ReadLinePrinted(line, rest);
    assert line[1..] == text && line[0] == '+';
  }

  lemma ReadLineReply(prefix: char, text: string, rest: string)
    requires IsLineText(text) && !IsLineEnd(prefix)
    ensures ReadLine([prefix] + text + CRLF + rest) == Line([prefix] + text, rest)
  {
    ReadLinePrinted([prefix] + text, rest);
  }

  lemma ReadErrPrinted(line: string, rest: string)
    requires WellFormed(Err(line))
    ensures ReadReply(PrintReply(Err(line)) + rest) == Answered(ErrorAnswer(line[4..]), rest)
  {
    var s := PrintReply(Err(line)) + rest;
    ReadLineReply('-', line, rest);
    assert s == "-" + line + CRLF + rest;
    assert ("-" + line)[5..] == line[4..];
  }

  lemma ReadStatusReply(text: string, rest: string)
    requires IsLineText(text)
    ensures ReadReply(PrintReply(Status(text)) + rest) == Answered(StatusAnswer(text), rest)
  {
    var s := PrintReply(Status(text)) + rest;
    ReadLineReply('+', text, rest);
    assert s == "+" + text + CRLF + rest;
    assert ("+" + text)[1..] == text;
  }

  /** One reply is read exactly. */
  lemma ReadReplyPrinted(r: Reply, rest: string)
    requires WellFormed(r)
    ensures ReadReply(PrintReply(r) + rest) == Answered(Seen(r), rest)
  {
    hide ReadNumber, ReadBulk, ReadMulti;
    match r
    case Status(text) => ReadStatusReply(text, rest);
    case Err(line) => ReadErrPrinted(line, rest);
    case Int(n) => ReadNumberPrinted(':', n, rest);
    case Bulk(_) => ReadItemPrinted(r, rest);
    case Array(items) => ReadMultiPrinted(items, rest);
  }

  /** Replies printed back to back are read one by one, up to the exact boundary. */
  lemma {:induction false} ReadRepliesPrinted(rs: seq<Reply>, rest: string)
    requires forall i :: 0 <= i < |rs| ==> WellFormed(rs[i])
    ensures ReadReplies(PrintReplies(rs) + rest, |rs|) == Answers(SeenAll(rs), rest)
  {
    hide ReadReply, PrintReply;
    if rs == [] {
      assert "" + rest == rest;
    } else {
      var tail := PrintReplies(rs[1..]) + rest;
      assert PrintReplies(rs) + rest == PrintReply(rs[0]) + tail;
      ReadReplyPrinted(rs[0], tail);
      ReadRepliesPrinted(rs[1..], rest);
      assert [Seen(rs[0])] + SeenAll(rs[1..]) == SeenAll(rs);
    }
  }

  /** An integer reply reaches the caller unchanged exactly when it fits 32 bits. */
  lemma IntSeenExactly(n: int, rest: string)
    requires -TWO_63 <= n < TWO_63
    ensures ReadReply(PrintReply(Int(n)) + rest) == Answered(IntAnswer(n), rest) <==> -TWO_31 <= n < TWO_31
  {
    ReadReplyPrinted(Int(n), rest);
  }

  // ---------------------------------------------------------------- the protocol in bytes

  /** A line ends at the first line feed, with a carriage return before it or without. */
  lemma LinesExactly(line: string, rest: string)
    requires '\n' !in line
    ensures ReadLine(line + "\n" + rest) == Line(TrimEnd(line), rest)
    ensures ReadLine(line) == NoLine
  {
    var s := line + "\n" + rest;
    assert forall i :: 0 <= i < |line| ==> line[i] in line;
    FindIsFirst(s, '\n', |line|);
    FindIsFirst(line, '\n', |line|);
    assert s[..|line| + 1] == line + "\n" && s[|line| + 1..] == rest;
    assert (line + "\n")[..|line|] == line;
  }

  /** What a server prints. */
  lemma RepliesInBytes(text: string, n: int, items: seq<Reply>)
    ensures PrintReply(Status(text)) == "+" + text + "\r\n"
    ensures PrintReply(Err(text)) == "-" + text + "\r\n"
    ensures PrintReply(Int(n)) == ":" + Print(n) + "\r\n"
    ensures PrintReply(Bulk(None)) == "$-1\r\n"
    ensures PrintReply(Bulk(Some(text))) == "$" + Print(|text|) + "\r\n" + text + "\r\n"
    ensures PrintReply(Array(items)) == "*" + Print(|items|) + "\r\n" + PrintReplies(items)
  {
  }

  lemma RequestInBytes()
    ensures Request(["SET", "key", "v"]) == "*3\r\n" + ("$3\r\nSET\r\n" + ("$3\r\nkey\r\n" + "$1\r\nv\r\n"))
  {
    assert Digits(1) == "1" && Digits(3) == "3";
    assert BulkString("SET") == "$3\r\nSET\r\n";
    assert BulkString("key") == "$3\r\nkey\r\n";
    assert BulkString("v") == "$1\r\nv\r\n";
    assert ArrayHeader(3) == "*3\r\n";
    ThreeBulks("SET", "key", "v");
  }

  lemma ThreeBulks(a: string, b: string, c: string)
    ensures BulkStrings([a, b, c]) == BulkString(a) + (BulkString(b) + BulkString(c))
  {
    hide BulkString;
    assert BulkStrings([c]) == BulkString(c) + "";
    assert [b, c][1..] == [c];
    assert [a, b, c][1..] == [b, c];
  }

  /** What the generic reader makes of each kind of reply. */
  lemma RepliesByKind(text: string, n: int, rest: string)
    requires IsLineText(text) && -TWO_63 <= n < TWO_63
    ensures ReadReply("+" + text + "\r\n" + rest) == Answered(StatusAnswer(text), rest)
    ensures ReadReply("-ERR " + text + "\r\n" + rest) == Answered(ErrorAnswer(text), rest)
    ensures ReadReply(":" + Print(n) + "\r\n" + rest) == Answered(IntAnswer(Narrow(n)), rest)
    ensures ReadReply("$-1\r\n" + rest) == Answered(BulkAnswer("**nonexistent-key**"), rest)
    ensures ReadReply("*-1\r\n" + rest) == NoAnswer(KeyError)
  {
    hide *;
    SeenByKind(text, n);
    RepliesInBytes(text, n, []);
    RepliesInBytes("ERR " + text, n, []);
    ReadReplyPrinted(Status(text), rest);
    ErrorsAreCut(text);
    ReadReplyPrinted(Err("ERR " + text), rest);
    assert "-" + ("ERR " + text) == "-ERR " + text;
    ReadReplyPrinted(Int(n), rest);
    ReadReplyPrinted(Bulk(None), rest);
    NullArray(rest);
  }

  lemma SeenByKind(text: string, n: int)
    requires IsLineText(text) && -TWO_63 <= n < TWO_63
    ensures WellFormed(Status(text)) && Seen(Status(text)) == StatusAnswer(text)
    ensures WellFormed(Int(n)) && Seen(Int(n)) == IntAnswer(Narrow(n))
    ensures WellFormed(Bulk(None)) && Seen(Bulk(None)) == BulkAnswer("**nonexistent-key**")
  {
  }

  lemma ErrorsAreCut(text: string)
    requires IsLineText(text)
    ensures WellFormed(Err("ERR " + text)) && Seen(Err("ERR " + text)) == ErrorAnswer(text)
  {
    assert ("ERR " + text)[4..] == text;
    assert '\n' !in "ERR " + text;
  }

  lemma NullArray(rest: string)
    ensures ReadReply("*-1\r\n" + rest) == NoAnswer(KeyError)
  {
    ReadNumberPrinted('*', -1, rest);
    assert Digits(1) == "1";
    assert ['*'] + Print(-1) + CRLF + rest == "*-1\r\n" + rest;
  }

  /** No other first byte starts a reply, and without bytes there is none. */
  lemma NoOtherKind(s: string)
    ensures s == "" ==> ReadReply(s) == NoAnswer(ConnectionError)
    ensures s != "" && s[0] !in "+-:$*" ==> ReadReply(s) == NoAnswer(RuntimeError)
  {
  }

  /** A line that should hold a number: its errors, in this order. */
  lemma NumberErrors(prefix: char, line: string, rest: string)
    requires IsLineText(line)
    ensures ReadNumber(prefix, line + "\r\n" + rest)
         == if line == "" || line[0] != prefix then NoInt(ProtocolError)
            else if ParseLong(line[1..]).None? then NoInt(BadCast)
            else Got(ParseLong(line[1..]).value, rest)
    ensures ReadNumber(prefix, line) == NoInt(ConnectionError)
  {
    hide ParseLong;
    ReadLinePrinted(line, rest);
    LinesExactly(line, rest);
  }

  /** Lengths below -1: -2 stands for no data and no line end, the others are refused. */
  lemma NegativeLengths(n: int, rest: string)
    requires -TWO_63 <= n < -1
    ensures ReadBulk("$" + Print(n) + "\r\n" + rest) == NoText(if n == -2 then ProtocolError else LengthError)
    ensures ReadMulti("*" + Print(n) + "\r\n" + rest) == NoTexts(LengthError)
    ensures ReadMultiSet("*" + Print(n) + "\r\n" + rest) == Members(n, {}, rest)
  {
    hide ReadNumber, Print;
    ReadNumberPrinted('$', n, rest);
    ReadNumberPrinted('*', n, rest);
  }

  /** A status is a line with a plus; what follows the plus is not looked at. */
  lemma StatusLines(text: string, rest: string)
    requires IsLineText(text)
    ensures ReadStatus("+" + text + "\r\n" + rest) == Text(text, rest)
    ensures text == "" || text[0] != '+' ==> ReadStatus(text + "\r\n" + rest) == NoText(ProtocolError)
  {
    hide ReadLine;
    ReadStatusPrinted(text, rest);
    ReadLinePrinted(text, rest);
  }
}
