# A verified model of a classroom server's common library

The project models the parts of the repository whose behaviour spans many
functions, and proves what they are for.

* **Protobuf messages** (`common/common.pb.cc`, `common/common.pb.h`). The
  generated classes are all instances of one template, so they are modelled as
  one class over a schema: `UserInfo`, `RoomInfo`, `GetRoomInfoRsp` and
  `GetRoomListRsp` are the schemas. `Wire` holds the byte primitives of the
  Protocol Buffers encoding (sections "Base 128 Varints", "Message Structure",
  "Length-Delimited Records" and "Last One Wins"), `Message` the plain
  read-tag-and-switch loop, merging and serializing as functions, `MergeLaw`,
  `RoundTrip`, `Sizes` and `Reencoding` what is proved about these functions,
  `Leavings` what a parse that fails leaves in the message and unread, and
  `Generated` the class with its has-bits, owned nested messages, cached sizes,
  ExpectTag fast path and two serializers, each proved against the functions.
  `WireFormat` and `CommonProto` state the encoding of the four messages in numerals:
  varints, wire types, the tag of every field, what each turn of the loop does and the
  bytes that are written.
* **Redis client** (`common/redisclient.h`, `common/anet.cpp`). `Resp` is the
  printer and the readers of the "Redis serialization protocol specification"
  (sections "Bulk strings", "Arrays" and "Integers") as functions of the bytes
  that are still to come. `Connection` is one socket with its server: partial
  writes, partial reads and peeks of any size, and the reading loops.
  `Transactions` is MULTI/EXEC on a server, refused commands included, `Cluster` the
  execution of batches, `Redis` a store of strings and sets, `Sharding`, `KeyValue`
  and `SetAlgebra` the operations that split their keys over several servers.
* **Membership** (`common/zooClient.cpp`): host paths, list differences and the
  subscribers' view.
* **INI files** (`common/Config.cpp`): `Ini` is what the text means, `Config` the
  object that loads and writes it, and `IniFormat` says what lines mean whatever
  spaces, comments and line ends they have.
* **Pool** (`common/redisCliMgr.h`) and **Perfect** (`testclient/main.cpp`).

Where the code and its comments disagree, the model follows the code:

* `read_line` promises a blank string after `max_size` bytes; its byte count is
  never increased, so it reads to the line feed however far that is
  (`common/redisclient.h:2584-2635`).
* An embedded message whose declared length exceeds what is left is accepted and
  ends with the enclosing window, because the shortest limit always wins
  (`depends/include/protobuf/io/coded_stream.h:313-316`). The merge law therefore
  fails exactly for strings that end in such a message, as far as the total limit
  goes.
* A stream is said to refuse to read beyond 64 megabytes
  (`depends/include/protobuf/io/coded_stream.h:334-372`, `:568`). The constructor for
  arrays and the inline readers never look at that limit (`:1186-1210`), so that some
  longer strings are accepted; whether a given one is depends on `coded_stream.cc`,
  which is not part of this model. All results about whole strings stop at the limit.
* `sinter` and `sunion` warn that they are not safe on a cluster
  (`common/redisclient.h:1390-1393`); they are, and that is proved.
* `TrimString` is said to trim tabs; it trims spaces, and throws on a string of
  spaces only (`common/Config.h:138-144`, `common/Config.cpp:49-60`).

What a reader of the Protocol Buffers library leaves behind when it fails (in the
string it was filling, among the unknown fields, and unread) is a parameter,
`Debris`: the header does not say, and `coded_stream.cc` is not part of this model. The server of
a transaction is given by a `Behaviour`: its replies outside transactions and the
commands it refuses to queue. A server that keeps a store answers MGET, MSET, DEL,
SINTER and SUNION from it outside transactions and may do anything else otherwise.

What is assumed of the world outside: a `recv` that asks for no more than was
peeked before returns all of it; a server behind a socket is any function from
the commands it has executed to its next reply, and answers as soon as a request
is complete; a socket whose inbox is empty reads as closed. A connection has a
flag `reliable`: without it `write` and `recv` may fail and `write` may write
nothing, and the theorems about whole operations are stated for connections with
it. `std::map` iteration over sockets is modelled by an arbitrary order. Integers
are unbounded except where the source narrows them.

## Model

| member | source | states |
|---|---|---|
| Wire.ReadVarint32Varint | depends/include/protobuf/io/coded_stream.h:226-229 | a printed 32-bit number is read back, and the bytes after it are left |
| Wire.ReadVarint64Varint | depends/include/protobuf/io/coded_stream.h:230-231 | the same for 64 bits, within ten bytes |
| Wire.ReadTagMade | depends/include/protobuf/io/coded_stream.h:233-240 | a printed tag is read back and splits into its field number and wire type |
| Wire.ReadBytesDelimited | depends/include/protobuf/wire_format_lite.h:300-301 | a length-delimited record is read back whatever follows |
| Wire.SkipFieldRoundTrip | depends/include/protobuf/wire_format.h:130-134 | skipping the printed form of any unknown field, groups included, keeps that very field |
| Wire.SkipMessageRoundTrip | depends/include/protobuf/wire_format.h:136-139 | the fields of a group and its closing tag are read back in order |
| Wire.SkipFieldExtends | depends/include/protobuf/wire_format.h:130-134 | a field that could be skipped is skipped alike when more input follows |
| WireFormat.NumberIsThere | depends/include/protobuf/io/coded_stream.h:224-231 | a number is read exactly when a varint ends within ten bytes |
| WireFormat.LowBitsAreRead | depends/include/protobuf/io/coded_stream.h:226-231 | it is the low 64 or the low 32 bits of the groups of seven bits, whatever the length of the varint |
| WireFormat.VarintIsOne | depends/include/protobuf/io/coded_stream.h:722-726 | what is printed is the varint of the number |
| WireFormat.DelimitedBytes | depends/include/protobuf/wire_format_lite.h:300-301 | a record is as many bytes as its length says, and a length beyond the window is refused |
| WireFormat.SkippedByType | depends/include/protobuf/wire_format_lite.h:86-93 | what follows the tag of a skipped field: a varint, eight bytes, a record, four bytes, and nothing else |
| WireFormat.SkippedGroup | depends/include/protobuf/wire_format.h:130-139 | a group is kept if and only if it is closed by the tag of its own number, and one level of nesting is left |
| WireFormat.UnknownBytes | depends/include/protobuf/wire_format_lite.h:86-93 | the tags and bytes that an unknown field is written with |
| CommonProto.UserInfoTags | common/common.pb.cc:3059-3182 | the seven tags of a user, and no others, are recognised and written |
| CommonProto.RoomInfoTags | common/common.pb.cc:3531-3702 | the seven tags of a room, and no others, are recognised and written |
| CommonProto.ResponseTags | common/common.pb.cc:4236-4750 | the two tags of either response, and no others, are recognised |
| CommonProto.NumberTurn | common/common.pb.cc:3565-3577 | after the tag of a number comes a varint, whose low 32 bits are kept |
| CommonProto.BytesTurn | common/common.pb.cc:3536-3562 | after the tag of a string come a length and as many bytes |
| CommonProto.MessageTurn | common/common.pb.cc:4258-4270 | a nested message is read into the one that is there, or into a new one |
| CommonProto.ElementTurn | common/common.pb.cc:3579-3592 | an element is read into a new message at the end of the list |
| CommonProto.NestedExactly | depends/include/protobuf/wire_format_lite_inl.h:482-497 | a nested message needs a length, a level of nesting and a regular end of its window, which the enclosing one may cut short |
| CommonProto.OtherTurn | common/common.pb.cc:3641-3651 | any other field, of a known number or not, is skipped and kept; the end of a group ends the loop, but not regularly |
| CommonProto.LastTurn | depends/include/protobuf/io/coded_stream.h:878-887 | the end of the window is the regular end; a tag of 0 or one without end is not |
| CommonProto.WholeExactly | depends/include/protobuf/io/coded_stream.h:376-381 | a whole string is accepted at its regular end, with a hundred levels of nesting |
| CommonProto.FailedTurn | common/common.pb.cc:3536-3594 | what a value that cannot be read leaves: a set string, a number as it was, a nested message as far as it was read |
| CommonProto.CreateTime | common/common.pb.cc:3565-3572 | the bytes of a creation time, of any length up to ten, are a room with that time in 32 bits |
| CommonProto.NegativeCreateTime | depends/include/protobuf/io/coded_stream.h:226-229 | -1 in ten bytes is kept as 4294967295 |
| CommonProto.UserInfoBytes | common/common.pb.cc:3184-3226 | the bytes of any user, with the seven tags in numerals |
| CommonProto.RoomInfoBytes | common/common.pb.cc:3657-3702 | the bytes of any room, with the seven tags in numerals |
| CommonProto.ResponseBytes | common/common.pb.cc:4287-4769 | the bytes of any response, with the two tags in numerals |
| CommonProto.SchemasNest | common/common.pb.h:958-1673 | the four messages nest at most two levels |
| CommonProto.BareIsReceived | depends/include/protobuf/io/coded_stream.h:376-381 | any of the four messages without unknown fields that fits the total limit is received as it was sent |
| MergeLaw.ParseFits | common/common.pb.cc:3531-3655 | parsing keeps every member of its field's type, nested messages included |
| MergeLaw.MergeDefaultLeft | common/common.pb.cc:3834-3858 | merging into a default message gives the other message |
| MergeLaw.MergeDefaultRight | common/common.pb.cc:3834-3858 | merging a default message changes nothing |
| MergeLaw.ParseMerge | common/common.pb.cc:4236-4285 | parsing into a merged message is merging what parsing into the second one gives: success, rest and message |
| MergeLaw.ParseContinues | common/common.pb.cc:3531-3655 | after a string that ends regularly and does not overrun, parsing goes on with what follows |
| MergeLaw.MergeLawHolds | common/common.pb.cc:4369-4380 | parsing x followed by y, within the total limit, succeeds exactly when y parses, and gives the merge of the two messages |
| MergeLaw.OverrunBreaksMerge | depends/include/protobuf/io/coded_stream.h:313-320 | after a string that ends in a message longer than the string, some y makes the law fail |
| MergeLaw.MergeLawExactly | depends/include/protobuf/io/coded_stream.h:313-372 | the law holds for every y that fits the limit after x if and only if x does not overrun, or no message fits after x |
| MergeLaw.TruncatedRoomList | common/common.pb.cc:4700-4750 | a concrete accepted room list that overruns |
| RoundTrip.ParseSerialized | common/common.pb.cc:3657-3702 | the bytes of any message that can be sent are parsed, at any nesting budget, to that message and the regular end |
| RoundTrip.SerializeThenParse | common/common.pb.cc:4700-4769 | parsing a serialization that fits the total limit returns the same message: has-bits, list order and unknown fields |
| Sizes.VarintSize32Exact | depends/include/protobuf/io/coded_stream.h:722-726 | the size computed for a 32-bit varint is the number of bytes printed |
| Sizes.SizeExact | common/common.pb.cc:3756-3820 | the sum in ByteSize order, with one byte per tag, is the length of the serialization |
| Reencoding.ParseKept | common/common.pb.cc:3531-3702 | parsing leaves a message that can be sent in no more bytes than it had and were read |
| Reencoding.ParsedIsSentBack | common/common.pb.cc:4700-4769 | whatever bytes within the total limit are accepted, the message is sent in no more bytes and parsed back to itself |
| Leavings.LeftIsParsed | common/common.pb.cc:3531-3655 | what a successful parse leaves is the message and the rest that were read, whatever the library leaves on failures |
| Leavings.LeftContinues | common/common.pb.cc:3531-3655 | what a parse leaves is what going on from the fields already read leaves |
| Leavings.LeftHolds | common/common.pb.cc:3531-3655 | a parse, even a failed one, unsets no member and removes no element and no unknown field, at any nesting |
| Leavings.LeftKeeps | common/common.pb.cc:3531-3655 | a member of which the string brings no value keeps its contents, whether the parse fails or not |
| Leavings.KeptAfterFailure | common/common.pb.cc:3531-3655 | when the second of two strings cannot be read, nothing that the first one set is unset or removed, and the members that the second one does not reach are exactly as the first one left them |
| Generated.MessagesAreInstances | common/common.pb.h:958-1673 | the four messages have the shape the class needs, and one-byte tags throughout |
| Generated.CodedInput.NextTag | depends/include/protobuf/io/coded_stream.h:878-887 | the next tag and the rest, or 0 at the end and on a malformed tag, with the regular end told apart |
| Generated.CodedInput.ExpectTag | depends/include/protobuf/io/coded_stream.h:936-957 | advances only past exactly the expected one-byte tag |
| Generated.CodedInput.ExpectAtEnd | depends/include/protobuf/io/coded_stream.h:980-990 | never reports an end that is not there |
| Generated.CodedInput.PushLimit | depends/include/protobuf/io/coded_stream.h:313-320 | the window shrinks to the declared length or to what is left |
| Generated.GeneratedMessage.AbsFits | common/common.pb.h:3446-3754 | every observable message is of its schema |
| Generated.GeneratedMessage.ClearedIsDefault | common/common.pb.cc:3505-3529 | no has-bit, no element and no unknown field means the default message, whatever the members hold |
| Generated.GeneratedMessage.constructor | common/common.pb.cc:3455-3464 | a new message is valid and default |
| Generated.GeneratedMessage.SetBytes | common/common.pb.h:3465-3485 | only this string changes, to the given bytes; an unset bit still implies a default |
| Generated.GeneratedMessage.SetUint | common/common.pb.h:3603-3606 | only this number changes |
| Generated.GeneratedMessage.MutableBytes | common/common.pb.h:3486-3492 | marks the string as set and keeps its bytes |
| Generated.GeneratedMessage.ClearScalar | common/common.pb.h:3456-3461 | only this member becomes unset and default |
| Generated.GeneratedMessage.ReleaseBytes | common/common.pb.h:3493-3502 | hands over the bytes that were set and leaves the member unset |
| Generated.GeneratedMessage.SetAllocatedBytes | common/common.pb.h:3503-3514 | takes a string over, or unsets the member for a null pointer |
| Generated.GeneratedMessage.MutableKid | common/common.pb.h:3934-3938 | the nested message becomes set, as it was or default, and nothing else changes |
| Generated.GeneratedMessage.ClearKid | common/common.pb.h:3927-3930 | the nested message becomes unset, and the kept object is cleared |
| Generated.GeneratedMessage.ReleaseKid | common/common.pb.h:3939-3944 | hands over the nested message that was set, apart from what stays; one that was not set is null or default |
| Generated.GeneratedMessage.SetAllocatedKid | common/common.pb.h:3945-3953 | takes a nested message over, or unsets it |
| Generated.GeneratedMessage.ClearElements | common/common.pb.h:3612-3614 | the repeated field becomes empty and nothing else changes |
| Generated.GeneratedMessage.AppendKid | common/common.pb.h:3621-3623 | one element more at the end, the others as they were |
| Generated.GeneratedMessage.Clear | common/common.pb.cc:3505-3529 | the guarded clear gives the default message from any valid state |
| Generated.GeneratedMessage.MergeFrom | common/common.pb.cc:3834-3858 | the observable result is the merge of both messages |
| Generated.GeneratedMessage.MergeElements | common/common.pb.cc:3836-3836 | copies of the other list's elements are appended in order |
| Generated.GeneratedMessage.MergeMember | common/common.pb.cc:4369-4380 | a set scalar replaces, a set nested message merges recursively |
| Generated.GeneratedMessage.CopyFrom | common/common.pb.cc:3866-3870 | equals the source afterwards, whatever it held before, itself included |
| Generated.GeneratedMessage.Swap | common/common.pb.cc:3877-3890 | the two messages change places |
| Generated.GeneratedMessage.ByteSize | common/common.pb.cc:3756-3820 | for a size that fits an `int`, returns it without an overflow on the way, leaves right cached sizes in the message and everything nested, and changes nothing else |
| Generated.GeneratedMessage.SerializeWithCachedSizes | common/common.pb.cc:3657-3702 | with right cached sizes, appends exactly the serialization |
| Generated.GeneratedMessage.SerializeWithCachedSizesToArray | common/common.pb.cc:3704-3754 | writes the same bytes into the buffer and nothing beyond them |
| Generated.GeneratedMessage.ReadNested | depends/include/protobuf/wire_format_lite_inl.h:482-497 | reads a length and a nested message that must end regularly at its limit; says what is read of it and what is unread when it fails |
| Generated.GeneratedMessage.ReadKnown | common/common.pb.cc:3536-3636 | the body of a case: the field's slot after one more value, or what is left of it and unread when the value cannot be read |
| Generated.GeneratedMessage.TagAfter | common/common.pb.cc:3548-3636 | the expected tags, the expected end and the ordinary read agree on the next tag |
| Generated.GeneratedMessage.MergePartialFromCodedStream | common/common.pb.cc:3531-3655 | the ExpectTag path has the success, the message and the unread bytes of the plain loop, for every byte string, accepted or not |
| Generated.GeneratedMessage.SerializeToString | common/common.pb.cc:3704-3820 | for a size that fits an `int`: sizes, then bytes into a buffer of exactly that size |
| Generated.GeneratedMessage.ParseFromString | common/common.pb.cc:3505-3655 | among the strings within the total limit, accepts exactly those that parse to their regular end, whatever the message held; says what a failed parse leaves |
| Generated.GeneratedMessage.SendTo | common/common.pb.cc:3505-3820 | one message that fits the total limit, sent through bytes, arrives in another |
| Generated.ClearedSize | common/common.pb.cc:3505-3529 | after Clear, ByteSize is 0 |
| Decimal.PrintedIsParsed | common/redisclient.h:2336-2336 | lexical_cast reads every printed 64-bit number back |
| Decimal.DigitsInText | common/redisclient.h:250-264 | numbers are printed in decimal, the highest digit first |
| Decimal.NumbersAsText | common/redisclient.h:2336-2336 | lexical_cast reads a sign or none and digits, in 64 bits, and refuses everything else |
| Resp.LinesExactly | common/redisclient.h:2591-2641 | a line ends at the first line feed, with a carriage return before it or without; without a line feed there is none |
| Resp.ReadLinePrinted | common/redisclient.h:2591-2641 | a line of text without line feed and trailing carriage return is read back, and the rest is left |
| Resp.TrimEndKeeps | common/redisclient.h:2495-2500 | rtrim drops the carriage returns and line feeds at the end and no others |
| Resp.ReadBulkPrinted | common/redisclient.h:2339-2363 | any bytes, CR and LF included, survive as a bulk string |
| Resp.ReadBulkMissing | common/redisclient.h:2343-2344 | a null bulk string reads as the missing marker |
| Resp.RequestRoundTrip | common/redisclient.h:250-264 | a printed command is read back by the multi-bulk reader, argument by argument, and following bytes stay unread |
| Resp.ReadMultiExtends | common/redisclient.h:2365-2378 | a complete multi-bulk is read alike when more bytes follow |
| Resp.ReadStatusPrinted | common/redisclient.h:2289-2312 | a status line is read back |
| Resp.ReadReplyPrinted | common/redisclient.h:2553-2582 | one well-formed reply is read exactly, as its kind |
| Resp.ReadRepliesPrinted | common/redisclient.h:2531-2582 | replies printed back to back are read one by one up to the exact boundary |
| Resp.IntSeenExactly | common/redisclient.h:2565-2567 | an integer reply reaches the caller unchanged if and only if it fits 32 bits |
| Resp.RepliesInBytes | common/redisclient.h:2531-2551 | the bytes of every kind of reply |
| Resp.RequestInBytes | common/redisclient.h:250-264 | the bytes of a SET of one key |
| Resp.RepliesByKind | common/redisclient.h:2553-2582 | what the generic reader makes of each kind of reply, a missing value and a null array included |
| Resp.NoOtherKind | common/redisclient.h:2531-2551 | no other first byte starts a reply |
| Resp.NumberErrors | common/redisclient.h:2320-2337 | the errors of a line that should hold a number, in their order |
| Resp.NegativeLengths | common/redisclient.h:2339-2391 | what lengths below -1 give |
| Resp.StatusLines | common/redisclient.h:2289-2312 | a status is a line with a plus, and every other line is thrown |
| Connection.ServeMore | common/redisclient.h:677-692 | it makes no difference to a server where the request bytes are cut |
| Connection.ServeRequests | common/redisclient.h:677-692 | requests sent together are executed and answered in order |
| Connection.Connection.Write | common/anet.cpp:224-226 | write(2): some first part of the bytes is taken, none, or an error |
| Connection.Connection.AnetWrite | common/anet.cpp:220-231 | delivers exactly the first `total` bytes in any pieces; everything when every write takes at least one byte |
| Connection.Connection.AnetRead | common/anet.cpp:205-216 | the next bytes in order, fewer only at the end or on an error |
| Connection.Connection.Send | common/redisclient.h:2279-2287 | succeeds unless a write fails; a write of nothing goes unnoticed |
| Connection.Connection.Peek | common/redisclient.h:2607-2609 | shows some of the next bytes and takes none |
| Connection.Connection.Recv | common/redisclient.h:365-382 | takes some of the next bytes, and all that are asked for if they were peeked at |
| Connection.Connection.ReadN | common/redisclient.h:2510-2529 | exactly the next n bytes for every schedule of partial reads |
| Connection.Connection.ReadLine | common/redisclient.h:2591-2641 | exactly through the first line feed, trimmed, for every schedule; fails only when there is none |
| Connection.Connection.RecvNumber | common/redisclient.h:2320-2337 | the number of a prefixed line, or the error the source throws |
| Connection.Connection.RecvBulk | common/redisclient.h:2339-2363 | the bulk reader over the socket, error for error |
| Connection.Connection.RecvMulti | common/redisclient.h:2365-2378 | the vector reader over the socket, error for error |
| Connection.Connection.RecvMultiSet | common/redisclient.h:2380-2391 | the set reader adds to the set it is given and returns the announced length |
| Connection.Connection.RecvInt | common/redisclient.h:2411-2426 | the integer reader over the socket |
| Connection.Connection.RecvStatus | common/redisclient.h:2289-2312 | the status reader over the socket |
| Connection.Connection.RecvReply | common/redisclient.h:2553-2582 | the generic reader over the socket, error for error |
| Transactions.QueueThenExec | common/redisclient.h:700-733 | from within a transaction on: QUEUED or the refusal for each command, then all results in order, or none if a command was refused |
| Transactions.Transaction | common/redisclient.h:700-733 | what a server answers to MULTI, the commands and EXEC, and the state it is left in |
| Transactions.WordsOutside | common/redisclient.h:700-716 | what MULTI, EXEC, DISCARD and other commands do outside a transaction |
| Transactions.WordsWithin | common/redisclient.h:716-727 | what they do within one |
| Transactions.WordsAsSent | common/redisclient.h:703-716 | the bytes of MULTI and EXEC |
| Cluster.Cluster.Route | common/redisclient.h:2434-2441 | every key is placed on one of the connections |
| Cluster.Cluster.RouteIsRemainder | common/redisclient.h:2649-2656 | keys are spread by the remainder of their hash |
| Cluster.Cluster.SendEach | common/redisclient.h:688-692 | every socket gets its own request and no other socket changes, in any order |
| Cluster.Cluster.Exec | common/redisclient.h:670-675 | one command: its reply, and its server's history grown by it; on a connection with unread replies the first of them instead, its own left behind the others |
| Cluster.Cluster.ExecEach | common/redisclient.h:670-675 | a loop of single commands is the run of the batch one command after the other |
| Cluster.Cluster.Scatter | common/redisclient.h:679-685 | the text for each socket is the requests of its commands, in order |
| Cluster.Cluster.Gather | common/redisclient.h:694-698 | reading the replies in command order gives each command its own |
| Cluster.Cluster.ExecAll | common/redisclient.h:677-698 | the pipelined batch gives every command the reply, and every server the history, of running the commands one at a time |
| Cluster.Cluster.Transcript | common/redisclient.h:700-717 | the text of a transaction, which is MULTI, the requests and EXEC in bytes, or that two commands are placed apart |
| Cluster.Cluster.ExecTransaction | common/redisclient.h:700-733 | all commands are executed together and result i goes to command i, or one is refused, none is executed, the refusal is thrown and the replies after it stay unread; a split or empty list sends nothing and fails |
| Cluster.Cluster.ExecAfterRefusal | common/operation.h:45-68 | a caller that catches that exception and goes on gets an answer meant for the transaction, never one of its own kind unless that is a status or an error, and stays behind |
| Cluster.RecvQueued | common/redisclient.h:720-725 | one QUEUED per command is consumed; a refusal is consumed and thrown, and what follows it is left unread |
| Cluster.RecvResults | common/redisclient.h:729-732 | result i becomes the reply of command i |
| Cluster.Connect | common/redisclient.h:432-445 | a client of the given servers, idle and ready, or an exception without any |
| Redis.OneServerDoesAll | common/redisclient.h:700-766 | for every initial store and choice of refused commands, one server runs transactions, remembers SET and SADD, and is of the kind the store theorems speak of |
| Redis.Remembered | common/redisclient.h:533-539 | in that server a SET and a SADD are remembered |
| Sharding.Group | common/redisclient.h:740-750 | per socket, its keys in order and their positions |
| Sharding.PositionsAre | common/redisclient.h:737-749 | the position lists partition the positions by socket |
| Sharding.IndicesIncrease | common/redisclient.h:740-750 | the keys of a socket keep their order |
| Sharding.AskEach | common/redisclient.h:752-756 | after sending, each asked socket holds its own answer and no other changed |
| Sharding.ReadingLeaves | common/redisclient.h:735-766 | an MGET, SINTER or SUNION spread over the servers changes no store |
| KeyValue.TextsRead | common/redisclient.h:758-765 | the answer to an MGET is the values in key order, missing ones marked |
| KeyValue.MissingMarker | common/redisclient.h:462-465 | a key that is not there, or holds no string, is given as the missing value |
| KeyValue.Place | common/redisclient.h:764-765 | each value lands at its own position |
| KeyValue.Mget | common/redisclient.h:735-766 | out[i] is the value of keys[i] in the unsharded store or the missing marker, duplicates included; no store changes, and each server with a key is sent one MGET |
| KeyValue.GroupPairs | common/redisclient.h:570-583 | per socket, the command name and its keys and values in order |
| KeyValue.SetPairsKeepsLast | common/redisclient.h:568-583 | setting one socket's pairs sets each of its keys to the last value given |
| KeyValue.Mset | common/redisclient.h:568-594 | every key holds the last value it was given, every other key what it held, and each server with a key is sent one MSET |
| KeyValue.SetThenGet | common/redisclient.h:568-766 | mget after mset returns the last value written to each key |
| KeyValue.CountRead | common/redisclient.h:941-946 | the count a server answers is positive if and only if one of its keys existed |
| KeyValue.Del | common/redisclient.h:926-950 | every named key is gone, no other changes, the result is true exactly when at least one existed, and each server with a key is sent one DEL |
| SetAlgebra.MembersRead | common/redisclient.h:2380-2391 | a listing in any order is read as the set |
| SetAlgebra.InterAnswer | common/redisclient.h:1405-1413 | one server's answer is the intersection over its own keys |
| SetAlgebra.Sinter | common/redisclient.h:1394-1429 | the intersection of all named sets for every placement of the keys, from one SINTER for each server with a key; `out` untouched for no keys |
| SetAlgebra.UnionAnswer | common/redisclient.h:1475-1484 | one server's answer is the union over its own keys |
| SetAlgebra.GetSocket | common/redisclient.h:2443-2463 | the common socket, or -1 exactly when two keys are placed apart |
| SetAlgebra.Sunion | common/redisclient.h:1460-1489 | `out` grows by the union for every placement, from one SUNION for each server with a key; the count is the size of `out` when the keys are spread and of the union when not |
| Membership.Tokens | common/zooClient.cpp:362-382 | tokens are never empty and hold no delimiter |
| Membership.SplitString | common/zooClient.cpp:362-382 | the strtok loop gives all tokens in order |
| Membership.ParseHostInfo | common/zooClient.cpp:384-398 | two tokens and two fields, or a failed assertion |
| Membership.HostPathRoundTrip | common/zooClient.cpp:384-411 | a printed host path is read back as the host if and only if its name and address are non-empty and free of separators |
| Membership.AtoiReads | common/zooClient.cpp:384-398 | white space and a sign may come before the digits of a port, and anything else after them |
| Membership.PortsWrap | common/zooClient.cpp:384-411 | a port is kept in sixteen bits |
| Membership.ParsedHosts | common/zooClient.cpp:351-359 | host j is what child j is parsed to, and the parse fails exactly when that of some child does |
| Membership.RegisteredIsFetched | common/zooClient.cpp:345-411 | at most 255 hosts registered under one name are fetched as those hosts in the same order |
| Membership.CompareHostInfo | common/zooClient.cpp:413-461 | the two lists of differences, in order |
| Membership.Missing | common/zooClient.cpp:417-437 | the difference holds exactly what is in one list and not in the other |
| Membership.MissingInOrder | common/zooClient.cpp:417-437 | the difference keeps order and repetitions |
| Membership.ToldAll | common/zooClient.cpp:305-331 | the events of one update turn the old view into the fetched set, add nothing present and remove nothing absent |
| Membership.ToldInOrder | common/zooClient.cpp:305-331 | new hosts are told of first, then the lost ones, each as the difference of the lists |
| Membership.CleanEvent | common/zooClient.cpp:305-331 | a clean event adds only hosts that are not there, or removes only hosts that are |
| Membership.ViewAfter | common/zooClient.cpp:311-328 | a subscriber adds and removes what it is told |
| Membership.SubscribersInStep | common/zooClient.cpp:296-335 | over any run every subscriber holds exactly the hosts last fetched, through clean events only |
| Membership.IndexGetsPast | common/zooClient.cpp:351-351 | the one-byte index reaches the end of the list if and only if there are at most 255 children |
| Membership.FetchChildren | common/zooClient.cpp:92-107 | the fetched names, none when the fetch fails, and no end for more than 255 of them |
| Membership.GetServerList | common/zooClient.cpp:345-360 | every child parsed in order, a failed assertion, or no end for more than 255 children |
| Membership.ZooClient.UpdateServer | common/zooClient.cpp:296-335 | the list is replaced and the callbacks are told of exactly the changes; unwatched paths, failed parses and endless fetches change nothing |
| Membership.ZooClient.Observer | common/zooClient.cpp:279-294 | after a reconnect every path holds what was fetched for it; every subscriber is in step even when a fetch aborts or never ends |
| Ini.Trim | common/Config.cpp:49-60 | trimmed at both ends; fails if and only if the string is not empty and holds nothing but spaces |
| Ini.EntryMeaning | common/Config.cpp:108-119 | a printed item is read as its key and its value without a carriage return at the end |
| Ini.MeaningOk | common/Config.cpp:81-121 | every section name and item that a line can stand for is of the loadable form |
| Ini.LoadedIsLoadable | common/Config.cpp:68-126 | every map that a load gives is loadable, whatever the file |
| Ini.LoadReloads | common/Config.cpp:168-200 | the printed form of any loadable map is loaded as that map with its values reloaded |
| Ini.RoundTripExactly | common/Config.cpp:68-200 | loading a written map gives the map back if and only if it is well formed |
| IniFormat.SpacedEntry | common/Config.cpp:81-119 | an item line means its key and its value, whatever spaces are around them and with a carriage return at its end or without |
| IniFormat.IdleLine | common/Config.cpp:105-119 | a comment, or a line without an equals sign, means nothing |
| IniFormat.BlankLine | common/Config.cpp:49-60 | an empty line means nothing and one of spaces throws |
| IniFormat.LineIsCut | common/Config.cpp:81-89 | a line ends at a NUL, and a carriage return at its end is no part of it |
| IniFormat.SectionMeaning | common/Config.cpp:90-99 | a section is named by what is between the first opening and the last closing bracket of a line |
| IniFormat.OddBrackets | common/Config.cpp:90-104 | a line with an opening bracket only is refused; with a closing one before it only, the name is the rest of the line |
| IniFormat.SectionIsLoaded | common/Config.cpp:68-126 | a section of item lines, comments and idle lines is loaded with the last value of every key |
| IniFormat.SectionBegins | common/Config.cpp:93-99 | a section line completes the section before it, and a section that comes again starts anew |
| IniFormat.LoadEnds | common/Config.cpp:76-126 | the last line may do without a line feed; a line of more than 10239 bytes ends the file; one that cannot be read ends the load |
| IniFormat.PrintedInText | common/Config.cpp:168-200 | the text that a section and its items are written as |
| Config.Config.TakeLine | common/Config.cpp:81-121 | one line: its meaning applied, a missing bracket reported, a string of spaces thrown |
| Config.Config.LoadFile | common/Config.cpp:68-126 | the sections of the text, -1 for an unclosed bracket or no file, an exception for a blank line |
| Config.Config.WriteFile | common/Config.cpp:168-200 | every section and item once, the empty name first |
| Config.Config.WriteItem | common/Config.cpp:203-233 | only this item changes, in memory and in the file |
| Config.Config.ReadItem | common/Config.cpp:236-252 | the item, the default for a missing key, -1 for a missing section |
| Config.Config.WriteThenLoad | common/Config.cpp:68-233 | a second object loads exactly what the first one holds, if and only if that is well formed |
| Perfect.Cofactor | testclient/main.cpp:10-15 | divisors come in pairs |
| Perfect.AllFound | testclient/main.cpp:7-15 | candidates up to the square root and their cofactors are all proper divisors |
| Perfect.P | testclient/main.cpp:7-31 | returns 1 exactly for the perfect numbers, and for 1 |
| Pool.StepKeepsAccounts | common/redisCliMgr.h:31-54 | every step, a failed connection included, keeps each client in one place and the count of clients tied to the peak of use |
| Pool.AccountedIsSafe | common/redisCliMgr.h:31-54 | what the steps keep means: no client held twice, none both free and held, none lost |
| Pool.EveryRunIsSafe | common/redisCliMgr.h:19-63 | every interleaving is safe; no more clients are made than the larger of 1 and the peak of simultaneous users, and exactly so many if every connection succeeded |
| Pool.RedisCliMgr.PopFree | common/redisCliMgr.h:33-43 | the first free client, if there is one |
| Pool.RedisCliMgr.Construct | common/redisCliMgr.h:45-47 | a client that is neither free nor held, or none when it cannot connect |
| Pool.RedisCliMgr.ReturnClient | common/redisCliMgr.h:50-61 | a held client is free again, last in the list |

## Left out

- Generated.GeneratedMessage.MergePartialFromCodedStream: the stream is modelled without its total limit, so that for arrays beyond it the result holds only as far as the library goes on reading.
- Generated.GeneratedMessage.Clear: does not model the pool of cleared elements that a repeated field keeps for reuse; it is not observable.
- Generated.GeneratedMessage.MutableKid: does not model a caller that keeps the pointer and writes through it after a later Clear or release.
- Generated.GeneratedMessage.SerializeWithCachedSizes: threads the output as a value instead of writing to a stream object; the array serializer writes in place.
- Generated.GeneratedMessage.ByteSize: requires that the size fits an `int`, beyond which the sums of the source are undefined.
- Generated.GeneratedMessage.SerializeToString: likewise.
- Generated.GeneratedMessage.ParseFromString: promises nothing for strings beyond the total limit.
- Generated.GeneratedMessage.SendTo: requires a serialization within the total limit.
- Generated.GeneratedMessage.CopyFrom: is stated for a source that shares no nested message with the target, as ownership guarantees.
- Connection.Connection.AnetWrite: does not model the narrowing of a message length to `int`.
- Cluster.Cluster.ExecAll: the result is stated for connections that are idle and reliable and for replies that the generic reader can read; null or nested multi-bulk replies and error lines of fewer than four characters are not.
- Cluster.Cluster.ExecTransaction: WATCH is not modelled.
- KeyValue.Mget: texts beyond the positions asked for would be written out of bounds; the model stops instead.
- KeyValue.Del: keys are a sequence, not an iterator range.
- KeyValue.SetThenGet: like the other operations on stores it speaks of servers outside transactions; keys with an expiry time are not modelled.
- SetAlgebra.Sinter: nothing is stated for keys that hold something other than a set.
- Membership.ParseHostInfo: does not model the overflow of `atoi` on numbers beyond an `int`.
- Config.Config.WriteFile: does not model a write that fails halfway; of the order of names only the place of the empty one is modelled.
- Perfect.P: does not model the overflow of `i * i` near the largest `int`, nor that of the sum, nor the printing of the divisors.
- Messages other than the four named: they are flat copies of the same template.
- Descriptors, reflection, registration and default instances of the generated code.
- Sockets, epoll, HTTP, websockets, ZooKeeper sessions and watches, logging, process and thread drivers.
- Redis operations of the form "send, then read one reply", the `distributed_*` classes and disabled code.
- The mset of two vectors, both msetnx and msetex: the first three route by all keys at once, the last is mset with expiry commands added.
- `common/buffer.cpp`, `common/mytask.h`, JSON, curl and jute headers.
