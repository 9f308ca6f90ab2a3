# Verified model of the chat room server

This project models the parts of the chat room where bytes, names and shared state have to fit
together, and proves what the C++ code does with them.

| modules | what they model |
|---|---|
| `Prelude`, `Wire`, `Utf8`, `Schema`, `SchemaLaws` | the Protocol Buffers encoding: records ("Base 128 Varints", "Message Structure", "Length-Delimited Records", "Groups" of its encoding specification), and what any .proto schema means |
| `AuthProto`, `AuthCode`, `GeneratedCode`, `ParseSteps`, `PrintSteps` | `Proto/user_auth.proto` and the classes generated from it: parse loop, printer, size calculator, merge |
| `Framing`, `Reading`, `AuthServer` | the four-byte length prefix, `Connection::readMessage`, and the registration server's `handleProcess` and dispatch |
| `Names` | the strings composed out of user and group names, and the code that takes them apart again |
| `GroupStore`, `Roster`, `GroupRoles`, `GroupExact`, `GroupLists`, `GroupRuns`, `GroupEffects`, `GroupServer` | groups and roles: four Redis records per group, updated by hand in eight handlers, refined to one roster per group |
| `Delivery` | group messages, and the Response hash shown at the next login |
| `Sessions` | user and descriptor registries, workers, and dispatch across them while descriptors are reused |
| `ChatLog` | bounded chat history |
| `Commands`, `FileQueue` | the file server's command lines, the queue of files handed from one user to another, and the loop that sends them |
| `Passive` | the reply to PASV (section 4.1.2 of RFC 959) and the client's scan of it |

Four shapes recur. The code that changes state is a class whose methods are each proved equal to a
function of the old state; the laws are lemmas about those functions, over every input or every run.
What such a function computes is said once more in other terms: bytes by their weights, texts by their characters, lists
by what each command adds, registries by which login was last (names such as `VarintShape`, `PackLayout`, `RequestEffect`,
`UsersInRun`, `ReplyNumbers`).
Where a law does not hold of the code on all inputs, the lemma states exactly when it does (names ending in
`Iff`, `SplitDashUndoesEntry`, `UnpackUndoesPack`, `SwapNoticed`).

What the proofs found in the code:

- `handleProcess` parses every complete frame of the buffer into one message, and the switch acts once:
  of two frames completed by one read, the first is lost. A frame that does not parse stays at the head for
  good, and at every later read the switch acts again on the message that it left half filled
  (`AuthServer.MalformedFrameBlocks`). Whatever frames come in whatever reads, all complete ones reach the switch
  exactly when each of them parses and no read completes two (`AuthServer.NothingLostIff`).
- `len + 4` is 32-bit arithmetic. At a length of 2^32 - 4 `unpack` reports a message and removes nothing; at
  every other length it makes the buffer shorter, by one to three bytes above it (`Framing.UnpackShrinksIff`,
  `Framing.WrappedHeader`). The drain loop of `readMessage` ends exactly if it never meets that length
  (`Framing.EndsIff`); the loop of `handleProcess` ends exactly if it never meets that length with bytes behind the
  header that parse (`AuthServer.StopsIff`, `AuthServer.EndsStops`). The complete frames are what `readMessage` hands
  over exactly if it meets no such or longer length (`Framing.FollowsIff`).
- A kick by a manager passes the group name and the owner name in the other order
  (`src/Server/net/connection.cc:550`, compare line 507). Roles stay right, but the kicked user's list keeps the
  group unless the swapped entry happens to be the same (`GroupRuns.AllKeptIff`, `GroupRuns.SwapNoticed`).
- `add_manager` and `del_manager` break the roles exactly when they target the owner, `add_member` and an accepted
  application exactly when they target an owner or manager. `leave_group` removes the entry composed of the user and
  the claimed role; with a colon in the claim it can be another user's. It breaks the roles exactly when that is
  the owner's entry, or another user's and either of the two is privileged (`GroupExact.RolesKeptIff`).
  `add_manager` of a stranger keeps the roles but not the lists.
- A descriptor looked up before other steps reaches the same connection exactly if that was not erased in between,
  and another one exactly if the descriptor was then accepted again (`Sessions.LaterDispatchIff`); that can be
  another user's (`Sessions.StaleLookupMisdelivers`).
- The file server reads names as words of a line, so the test for a blank in the receiver's name
  (`src/Server/FTP_server/connect/Dataconnect.cc:110`) always succeeds, and every download that is done takes its path
  off the queue. Where the downloads of a pair do not overlap, each path is taken once and in order
  (`FileQueue.UploadsAreHandedOver`); with overlap, exactly if each finds its path at the head
  (`FileQueue.HandedOverIff`). The path goes even if a send failed hard; the receiver got the whole file exactly if none
  did (`FileQueue.FtpServer.CmdExecute`). A name with a blank, or a path of several words or lines, makes the
  server work on another pair (`Commands.SentAsMeantIff`).

## Model

| member | source | states |
|---|---|---|
| Wire.VarintRoundTrip | Proto/user_auth.pb.cc:513-514 | A varint read back with enough bytes allowed is the one written, whatever follows it |
| Wire.VarintShape | Proto/user_auth.pb.cc:606-664 | What is written for a number is the shortest byte sequence whose low seven bits, weighed by powers of 128, add up to it, with the high bit on all bytes but the last |
| Wire.ReadVarintShape | Proto/user_auth.pb.cc:513-514 | What is read is such a sequence in front and its weight, minimal or not; nothing is read exactly if no byte within the limit ends one |
| Wire.EncodedForm | Proto/user_auth.pb.cc:606-669 | Every record stands on the wire as the varint of its tag, with number and kind of payload in it, and the payload of that kind: varint, 8 bytes, length and bytes, records and end tag, 4 bytes |
| Utf8.ValidIff | Proto/user_auth.pb.cc:573 | The check on strings accepts exactly the encodings of sequences of Unicode scalar values |
| Wire.RecordsRoundTrip | Proto/user_auth.pb.cc:504-598 | Reading undoes writing for every list of records, nested groups and unknown fields included |
| Wire.ParseConcat | Proto/user_auth.pb.cc:506-591 | A buffer that parses can be extended: the records of a concatenation are those of its parts in a row, and it fails when the second part does |
| Wire.ParsedValid | Proto/user_auth.pb.cc:580-590 | Whatever bytes are parsed, every record kept can be printed and read again |
| Schema.FindIs | Proto/user_auth.pb.cc:509-579 | A tag belongs to at most one field of a schema, so no field shadows another |
| Schema.ApplyField | Proto/user_auth.pb.cc:600-671 | The printed form of one field, parsed into any message, merges that field and touches no other |
| Schema.ParsePrinted | Proto/user_auth.pb.cc:504-785 | Parsing a printed message into any existing message is exactly merging it, at every nesting depth ("Last One Wins") |
| Schema.ParseUndoesSerialize | Proto/user_auth.pb.cc:504-671 | For every message that can be printed, parsing what was printed gives the same message: absent and empty submessages stay apart, negative numbers and unknown records survive |
| Schema.ParseIntoConcat | Proto/user_auth.pb.cc:504-598 | Parsing two buffers one after the other into a message is parsing their concatenation, whatever bytes they are |
| Schema.ConcatenationMerges | Proto/user_auth.pb.cc:746-785 | Any parsable buffer followed by a printed message parses to the merge of the two messages |
| Schema.NormalForm | Proto/user_auth.pb.cc:580-590 | Parse-then-print keeps the meaning of any buffer, however its records are ordered or repeated, and printing again changes nothing |
| Schema.MergeAssociative | Proto/user_auth.pb.cc:746-785 | How a stream of messages is grouped for merging does not matter |
| Schema.MergeIntoDefault | Proto/user_auth.pb.cc:741-785 | Merging into a default message copies, recursively |
| Schema.LeftAfterSuccess | Proto/user_auth.pb.cc:504-598 | The contents of a message when its parse loop stops are the result of the parse, if that succeeds |
| Schema.LeftHasKinds | Proto/user_auth.pb.cc:504-598 | However the parse stops, every member holds a value of its kind |
| SchemaLaws.TwosComplement | Proto/user_auth.pb.cc:513-515 | Signed values travel as their two's complement: equal modulo 2^64 when written and modulo 2^32 when read |
| SchemaLaws.DefaultIsEmpty | Proto/user_auth.pb.cc:469-502 | Every member of a default message is zero, false, an empty text or absent |
| SchemaLaws.MergeRule | Proto/user_auth.pb.cc:754-784 | A merge keeps the second of two values unless it is empty, merges two submessages in turn, and keeps all unknown records in order |
| SchemaLaws.SerializedRecords | Proto/user_auth.pb.cc:606-669 | A printed message is the records of its values that are not empty, in schema order and each once, then its unknown records; each record carries its value: numbers modulo 2^64, true as 1, texts and printed submessages as they are |
| SchemaLaws.ReadScalar | Proto/user_auth.pb.cc:511-518 | A varint record sets a number to its low 32 bits and a boolean to whether it is not zero, whatever was there, and nothing else |
| SchemaLaws.ReadsText | Proto/user_auth.pb.cc:568-576 | A text record replaces the text if it is UTF-8; otherwise the parse fails |
| SchemaLaws.LeftConcat | Proto/user_auth.pb.cc:504-598 | When a parse fails, everything parsed before stays |
| SchemaLaws.BadTextStays | Proto/user_auth.pb.cc:570-573 | A text that is not UTF-8 stays in its member, and nothing behind it is read |
| SchemaLaws.BadMessageStays | Proto/user_auth.pb.cc:519-526 | A submessage that does not parse stays with what its own parse left, and nothing behind it is read |
| AuthProto.SchemasValid | Proto/user_auth.proto:18-67 | Field numbers are in range and distinct in each of the seven message types |
| AuthCode.AuthConforms | Proto/user_auth.pb.cc:504-785 | The cases, tags, members, print order and size order in the code of `Auth` are those its .proto message asks for, submessages included |
| AuthCode.RegisterVerConforms | Proto/user_auth.pb.cc:930-1090 | The same for `Register_Ver` |
| AuthCode.LoginVerConforms | Proto/user_auth.pb.cc:1260-1420 | The same for `Login_Ver` |
| AuthCode.RegisterRequestConforms | Proto/user_auth.pb.cc:1618-1813 | The same for `RegisterRequest` |
| AuthCode.RegisterResponseConforms | Proto/user_auth.pb.cc:1977-2110 | The same for `RegisterResponse`, whose field numbers skip 3 |
| AuthCode.LogInRequestConforms | Proto/user_auth.pb.cc:2289-2479 | The same for `LogInRequest` |
| AuthCode.LogInResponseConforms | Proto/user_auth.pb.cc:2608-2687 | The same for `LogInResponse` |
| GeneratedCode.SwitchFinds | Proto/user_auth.pb.cc:508-579 | Switching on the field number and comparing the tag's low byte finds exactly the field with the whole tag, and nothing for every other tag |
| GeneratedCode.Message.Clear | Proto/user_auth.pb.cc:469-502 | Leaves the default message |
| GeneratedCode.Message.InternalParse | Proto/user_auth.pb.cc:504-598 | The parse loop succeeds on exactly the buffers the schema-level parse accepts, and then holds its result; when it fails it holds what came before the bad record, a text that is not UTF-8, and what the parse of a bad submessage left |
| GeneratedCode.Message.ParseField | Proto/user_auth.pb.cc:510-576 | One case of the switch either fails together with the whole parse or goes on with the field updated |
| GeneratedCode.Message.ParseMessage | Proto/user_auth.pb.cc:519-526 | A submessage is parsed into the member, which exists from then on whether or not the parse succeeds |
| GeneratedCode.Message.ByteSizeLong | Proto/user_auth.pb.cc:673-737 | The total, added up in its own order, is the exact number of bytes the printer writes, and every cached size in the tree is then the printed length of its message |
| GeneratedCode.Message.InternalSerialize | Proto/user_auth.pb.cc:600-671 | With right cached sizes it writes the schema's serialization; every nested length prefix is the cached size |
| GeneratedCode.Message.MergeImpl | Proto/user_auth.pb.cc:746-785 | Leaves the schema-level merge of the two messages, recursively |
| GeneratedCode.Message.ParseFromString | src/Server/UserAuth/User_auth_s.cc:202 | Parsing replaces the old contents; it succeeds exactly when the schema-level parse does, and a failure leaves a determined message |
| GeneratedCode.Message.SerializeToString | src/Server/UserAuth/User_auth_s.cc:337-349 | Gives the serialization, or refuses what reaches 2 GiB |
| PrintSteps.SizeInAnyOrder | Proto/user_auth.pb.cc:673-737 | Any order that visits each field once adds up to the length of what is printed in field order |
| PrintSteps.Int32Length | Proto/user_auth.pb.cc:2645-2681 | A negative int32 or enum takes ten bytes and a non-negative one its varint, as the size calculator counts |
| PrintSteps.ListsOnce | Proto/user_auth.pb.cc:673-785 | An order of the right length that visits each field visits none twice |
| PrintSteps.ScalarPrints | Proto/user_auth.pb.cc:606-664 | The printer's and the size calculator's code for a scalar field agree with the encoding, a default value giving nothing |
| PrintSteps.MessagePrints | Proto/user_auth.pb.cc:613-655 | A submessage is printed behind its exact length when present, even if empty, and not at all when absent |
| Framing.PackLayout | src/tools/protocol.cc:3-12 | A frame is four bytes with the size in network byte order, cut to 32 bits, and then the payload |
| Framing.HeaderOrder | src/tools/protocol.cc:16-19 | The length read is that of the first four bytes in network byte order |
| Framing.UnpackUndoesPack | src/tools/protocol.cc:3-34 | `unpack` gives back the payload and the rest of the buffer if and only if the payload is shorter than 2^32 - 4 |
| Framing.UnpackShrinksIff | src/tools/protocol.cc:19-29 | A reported message makes the buffer shorter if and only if its length is not 2^32 - 4; at that length nothing is removed |
| Framing.WrappedHeader | src/tools/protocol.cc:19-29 | At the three lengths above it, what follows the header is reported and one to three bytes are removed |
| Framing.WrappedPayloadVaries | src/tools/protocol.cc:22-29 | What is reported behind such a header depends on how much had arrived when `unpack` looked, so the stream alone does not determine the messages |
| Framing.EndsIff | src/Server/net/connection.cc:36-40 | A buffer satisfies the precondition of the drain loop if and only if `unpack` reports nothing after some number of turns |
| Framing.FollowsIff | src/Server/net/connection.cc:36-40 | The loop ends and hands over exactly the complete frames if and only if no header along the buffer wraps around |
| Framing.DrainExtends | src/Server/net/connection.cc:36-166 | Draining before or after more bytes arrive hands over the same payloads and leaves the same rest |
| Framing.DrainPrefix | src/Server/net/connection.cc:36-166 | Of any prefix of a stream, the frames found are the first payloads sent, and the rest is a proper prefix of the next frame |
| Framing.DrainRestores | src/tools/protocol.cc:3-34 | Packing the drained payloads again gives back the bytes they came from |
| Reading.Connection.Unpack | src/tools/protocol.cc:14-34 | Takes one frame off the buffer, 32-bit wrap-around included, or changes nothing |
| Reading.Connection.ReadMessage | src/Server/net/connection.cc:14-168 | On every buffer on which the loop ends: a call that returns true hands over what following `unpack` gives and keeps the rest; one that returns false hands over nothing and keeps all bytes |
| Reading.ArrivedConcat | src/Server/net/connection.cc:19-23 | What arrives in a call is everything its reads returned, one behind the other |
| Reading.ReceivedConcat | src/Server/net/connection.cc:19-23 | What arrives in several calls is what arrives in each, one behind the other |
| Reading.RunAccounts | src/Server/net/connection.cc:14-168 | Over any run of calls on bytes without a wrapped header, every call returns, and what was handled plus what the buffer drains to is what all bytes received drain to |
| Reading.HandledInOrder | src/Server/net/connection.cc:14-168 | For every payload list, chunking and grouping into calls: every call returns, the handled payloads are a prefix of those sent, no byte is lost, and after a call that returns true they are exactly the complete frames |
| Reading.NextCallEnds | src/Server/net/connection.cc:36-40 | On the bytes of any sender of payloads below 2^32 - 4, the precondition of the next call always holds |
| AuthServer.Client.HandleProcess | src/Server/UserAuth/User_auth_s.cc:193-208 | On every buffer on which the loop ends: the buffer keeps what follows the last good frame, and the message is the last one parsed, what a malformed frame left, or unchanged |
| AuthServer.Client.OnMessage | src/Server/UserAuth/User_auth_s.cc:98-130 | One read dispatches one message: the last one completed, what a malformed frame left, or a default one |
| AuthServer.Client.Act | src/Server/UserAuth/User_auth_s.cc:113-129 | The switch on the action, with `Process`, causes the events of the message |
| AuthServer.EventsAre | src/Server/UserAuth/User_auth_s.cc:113-129 | For every message: at most one event, and which, from the action number and whether the text begins with "register" or "login" |
| AuthServer.SeenIsLastFrame | src/Server/UserAuth/User_auth_s.cc:193-208 | Of the frames in a buffer the switch sees the last one parsed, or what the first malformed one left |
| AuthServer.DefaultIsQuiet | src/Server/UserAuth/User_auth_s.cc:111-116 | A read that completes no frame causes no reply |
| AuthServer.SeenHasKinds | src/Server/UserAuth/User_auth_s.cc:111-116 | Whatever the bytes, the switch can act on the message it sees, a half filled one included |
| AuthServer.StopsIff | src/Server/UserAuth/User_auth_s.cc:194-206 | A buffer satisfies the precondition of the loop if and only if after some number of turns there is no complete frame or it does not parse |
| AuthServer.EndsStops | src/Server/UserAuth/User_auth_s.cc:194-206 | The loop ends wherever that of `readMessage` does; at a length of 2^32 - 4 in front it ends exactly if what follows does not parse |
| AuthServer.ConsumeExtends | src/Server/UserAuth/User_auth_s.cc:193-208 | Where no header wraps around before a malformed frame, parsing what is there and later the rest gives the same messages as parsing everything at once |
| AuthServer.MalformedFrameBlocks | src/Server/UserAuth/User_auth_s.cc:111-116 | After a frame that does not parse, whatever bytes arrive later, what is at the head stays, no message is parsed again, and every read dispatches the same message that frame left |
| AuthServer.StuckIff | src/Server/UserAuth/User_auth_s.cc:202-205 | A stream gets stuck if and only if one of its complete frames does not parse |
| AuthServer.FrameIsConsumed | src/Server/UserAuth/User_auth_s.cc:193-208 | Serialize, pack, unpack and parse together give back any message that can be sent |
| AuthServer.OneFrame | src/Server/UserAuth/User_auth_s.cc:98-130 | One frame cut into any reads: all but the last see a default message, the last one the message sent |
| AuthServer.LockStepDispatch | src/Server/UserAuth/User_auth_s.cc:98-216 | In lock step, every list of messages reaches the switch exactly once each and in order, for every way of cutting the frames into reads |
| AuthServer.LockStepReaches | src/Server/UserAuth/User_auth_s.cc:98-216 | In lock step, what reaches the switch beside default messages is exactly the list of messages sent |
| AuthServer.LockStepIsSane | src/Server/UserAuth/User_auth_s.cc:193-208 | In lock step the loop ends at every read |
| AuthServer.NoneIsInvented | src/Server/UserAuth/User_auth_s.cc:98-208 | For any bytes in any reads, with no wrapped header before a malformed frame, the switch sees at most one message per frame parsed and one more per read that finds a malformed frame at the head; there is such a read if and only if some frame is malformed |
| AuthServer.NothingLostIff | src/Server/UserAuth/User_auth_s.cc:98-208 | For any bytes in any reads, with no wrapped header before a malformed frame, the switch sees the complete frames, each once and in order, if and only if each parses and no read completes two |
| Names.EntryRoundTrip | src/Server/net/connection.cc:758-765 | `rfind(':')` undoes `user + ":" + role` for every user name, even with colons |
| Names.EntryText | src/Server/Redis/RedisClient.cc:427-431 | A member entry is the user's name, a colon and the role, character by character |
| Names.EntryCut | src/Server/net/connection.cc:758-765 | Cutting any string at the last colon and putting it together again gives it back; without a colon it is its own user and role |
| Names.RolesHaveNoColon | src/Server/net/connection.cc:386-391 | The three role names do not contain the separator |
| Names.IndexKeyInjective | src/Server/Redis/RedisClient.cc:387-388 | Groups with colon-free owner names have different index keys |
| Names.GroupEntryInjective | src/Server/Redis/RedisClient.cc:477-503 | Groups whose owner names do not contain the separator "   ---" have different list entries |
| Names.SeparatorClashes | src/Server/Redis/RedisClient.cc:477-503 | An owner name that contains it gives the group the same entry as another group |
| Names.ColonClashes | src/Server/Redis/RedisClient.cc:387-388 | An owner name with a colon gives the group the same index key as another group |
| Names.IndexKeyText | src/Server/Redis/RedisKeys.h:15-17 | An index key is its prefix, the owner's name, a colon and the group's name, character by character |
| Names.GroupEntryText | src/Server/Redis/RedisClient.cc:482 | A list entry is the group's name, the separator and the owner's name, character by character |
| Names.EntryParts | src/Server/net/connection.cc:758-765 | Every composed string, whatever was claimed as the role, is the entry of one user and one colon-free role |
| Names.TrimIsTrimmed | src/Client/UserChat/chat_tools.cc:48-52 | The result of `trim` has no outer blanks, and a string is unchanged if and only if it had none |
| Names.TrimCuts | src/Client/UserChat/chat_tools.cc:48-52 | `trim` cuts off nothing but blanks at both ends |
| Names.SplitDashAt | src/Client/UserChat/chat_tools.cc:54-59 | `split_dash` gives the trimmed sides of the first three dashes, or the trimmed whole and nothing |
| Names.SplitDashUndoesEntry | src/Client/UserChat/chat_tools.cc:54-59 | The client recovers name and owner from a list entry if and only if both are trimmed and the name has no "---" |
| GroupServer.RedisClient.SetGroupMember | src/Server/Redis/RedisClient.cc:427-437 | SADD: the element is in the set afterwards, true when it was new |
| GroupServer.RedisClient.RemoveGroupMember | src/Server/Redis/RedisClient.cc:453-462 | SREM: the element is gone, true when it was there |
| GroupServer.RedisClient.SetGroupManager | src/Server/Redis/RedisClient.cc:506-516 | HSET: true for a new field, but an existing one is overwritten too |
| GroupServer.RedisClient.RemoveGroupManager | src/Server/Redis/RedisClient.cc:519-528 | HDEL: the field is gone, true when it was there |
| GroupServer.RedisClient.GetGroupMember | src/Server/Redis/RedisClient.cc:440-450 | SMEMBERS lists every element of the set exactly once and nothing else |
| GroupServer.RedisClient.UserSetGroups | src/Server/Redis/RedisClient.cc:477-489 | Puts the group's entry into the user's list |
| GroupServer.RedisClient.UserRemoveGroups | src/Server/Redis/RedisClient.cc:492-503 | Takes the group's entry out of the user's list |
| GroupServer.Connection.AddGroup | src/Server/net/connection.cc:981-1025 | The records after creating a group, or unchanged when the owner has one of that name |
| GroupServer.Connection.GroupDecide | src/Server/net/connection.cc:807-882 | The records after an answer to an application: changed exactly when granted to an existing account |
| GroupServer.Connection.AddMember | src/Server/net/connection.cc:568-615 | The records after adding a member; the answer is yes exactly when no 成员 entry was there |
| GroupServer.Connection.DelMember | src/Server/net/connection.cc:469-565 | The records after either kick branch, the swapped names included; the answer is yes exactly when the member sets changed |
| GroupServer.Connection.LeaveGroup | src/Server/net/connection.cc:618-649 | The records after leaving under a claimed role; yes exactly when that entry was there |
| GroupServer.Connection.AddManager | src/Server/net/connection.cc:369-425 | The records after promotion, the hash overwritten even when the answer is no |
| GroupServer.Connection.DelManager | src/Server/net/connection.cc:314-366 | The records after demotion; yes exactly when a hash field was there |
| GroupServer.Connection.DisbandGroup | src/Server/net/connection.cc:428-466 | The loop over the members and the four deletions leave the records of the one-step disbanding, in whatever order members are listed |
| GroupServer.Connection.GroupMembers | src/Server/net/connection.cc:743-771 | The map sent to the client, for any order of the member set |
| GroupServer.Connection.GroupChoice | src/Server/net/connection.cc:774-804 | The role told to a user: the hash field, or 成员 |
| Roster.EntryIn | src/Server/net/connection.cc:390-393 | A composed entry is in a group's member set exactly when the user has that role |
| GroupRoles.AddMemberKeeps | src/Server/net/connection.cc:568-615 | A join of a non-privileged user keeps the role records in agreement |
| GroupRoles.DelMemberKeeps | src/Server/net/connection.cc:484-558 | Both kick branches keep index, member sets and manager hashes in agreement, for any target and claimed role |
| GroupRoles.LeaveKeeps | src/Server/net/connection.cc:618-643 | So does leaving under any claimed string, unless the entry it removes is the owner's, or another user's and one of the two is privileged |
| Roster.PlainLeaveGuard | src/Server/net/connection.cc:618-643 | For a claim without a colon the guards of leaving say no more than that the owner does not leave as owner |
| GroupRoles.AddManagerKeeps | src/Server/net/connection.cc:386-394 | So does promotion of anyone but the owner |
| GroupRoles.DelManagerKeeps | src/Server/net/connection.cc:330-335 | So does demotion of anyone but the owner |
| GroupRoles.AddGroupKeeps | src/Server/net/connection.cc:992-1018 | So does creating a group with a fresh uuid |
| GroupRoles.DisbandKeeps | src/Server/net/connection.cc:462-465 | So does disbanding |
| GroupRoles.RolesKept | src/Server/net/connection.cc:314-649 | Under its guard, every request takes records that represent rosters to records that represent the rosters after it |
| GroupExact.RosterUnique | src/Server/net/connection.cc:743-804 | Records represent at most one roster per group |
| GroupExact.RolesKeptIff | src/Server/net/connection.cc:314-649 | After a request some rosters agree with the role records if and only if the request met its guard |
| GroupLists.ListsKept | src/Server/Redis/RedisClient.cc:477-503 | Under the list guard, the users' group lists follow the rosters as well |
| GroupRuns.AllKeptIff | src/Server/net/connection.cc:314-649 | All four records agree with some rosters after a request if and only if both guards were met |
| GroupRuns.SwapNoticed | src/Server/net/connection.cc:550 | For names without the separator, swapping the two names in the manager's kick is harmless exactly in a group named like its owner |
| GroupRuns.RolesInEveryRun | src/Server/net/connection.cc:314-1025 | In every state reached by guarded requests, kicks by managers included, the role records agree |
| GroupRuns.ListsInEveryRun | src/Server/net/connection.cc:314-1025 | In every state reached by requests that meet both guards, all four records agree |
| GroupEffects.RequestEffect | src/Server/net/connection.cc:314-1025 | After each of the eight requests every user has exactly the roles the request leaves or gives, said of the member sets alone, in this and every other group |
| GroupEffects.ListEffect | src/Server/net/connection.cc:314-1025 | And every user's list names exactly the groups in which the user then has a role |
| GroupEffects.RunEffect | src/Server/net/connection.cc:314-1025 | So in every run: nobody has a role at first, and each request changes the roles as it says |
| GroupRuns.RoleRecords | src/Server/net/connection.cc:314-649 | In agreeing records each user has at most one role entry, the owner alone is 群主, the manager hash is exactly the privileged part of the member set, and it holds nothing but roles |
| GroupRuns.ListedIffMember | src/Server/Redis/RedisClient.cc:477-503 | A user's list names a group exactly when the user has an entry in the member set of the uuid the index gives for it |
| GroupRuns.DisbandErases | src/Server/net/connection.cc:428-466 | Disbanding leaves the group in no index, set, hash or list |
| GroupRuns.DisbandSpares | src/Server/net/connection.cc:428-466 | It leaves the four records of every other group as they were |
| GroupRuns.ViewsAgree | src/Server/net/connection.cc:743-804 | `group_members` shows every entry of the set, none overwritten, and each shown role is the one `group_choice` tells that user |
| Delivery.Server.GroupChat | src/Server/net/connection.cc:694-740 | One dispatch per online entry and one stored Response text per offline user, the sender left out, nothing else changed |
| Delivery.Server.ShowResponses | src/Server/net/connection.cc:1349-1367 | A login shows the user's whole Response hash, empties it, and leaves everyone else's |
| Delivery.Server.SetResKey | src/Server/Redis/RedisClient.cc:22-33 | Performs the storing event on the hashes of all users |
| Delivery.EachMemberOnce | src/Server/net/connection.cc:709-738 | In agreeing records every member but the sender gets exactly one dispatch if online and one stored text if not; everyone else gets nothing |
| Delivery.PacketsGoToUsers | src/Server/net/connection.cc:725-737 | Every packet goes to the descriptor under which its own user is registered |
| Delivery.PacketsReachMembers | src/Server/net/connection.cc:709-738 | In every reachable state of the registries a group message reaches only connections that logged in as its members other than the sender |
| Delivery.LoginShowsWhatWaits | src/Server/net/connection.cc:1349-1367 | Over any history of stores and logins, what a login shows is exactly what was stored since the user's last login, with the latest time |
| Sessions.InvStep | src/Server/Reactor/Worker.cc:89-98 | Every step - accept, login, and each of the three parts of removal - keeps the registries consistent, with the kernel free to reuse any closed descriptor |
| Sessions.InvRun | src/Server/Reactor/Worker.cc:22-104 | So does every interleaving of such steps |
| Sessions.MutualAfterLogInIff | src/Server/Manage/User_manager.cc:11-17 | A login keeps `users` and `fds` mutual if and only if no other user is registered on the same descriptor |
| Sessions.UsersStep | src/Server/Manage/User_manager.cc:11-26 | Each step registers the user it logs in and leaves everyone else registered, but for the user whose descriptor it removes |
| Sessions.FdsStep | src/Server/Manage/User_manager.cc:11-26 | The same for the users of descriptors |
| Sessions.UsersInRun | src/Server/Manage/User_manager.cc:11-26 | In every run a user is registered under a descriptor if and only if the user's last login was on it and no descriptor with that name was removed since |
| Sessions.FdsInRun | src/Server/Manage/User_manager.cc:11-26 | In every run a descriptor has a user if and only if the user's login was the last on it and it was not removed since |
| Sessions.WorkersTakeTurns | src/Server/Reactor/MasterServer.cc:113-120 | In every run the connections are numbered as accepted, and number k is at worker k modulo 10 |
| Sessions.DispatchReachesUser | src/Server/Manage/messageCenter.cc:14-21 | In every reachable state, a write to `users[u]` reaches a connection that logged in as u, or none |
| Sessions.OneWorker | src/Server/Reactor/MasterServer.cc:113-120 | In every reachable state a descriptor is served by at most one worker, the one `Worker_fd` names |
| Sessions.LaterDispatchIff | src/Server/Manage/messageCenter.cc:14-21 | After any steps, a lookup made earlier reaches the same connection if and only if that was not erased, another one if and only if the descriptor was accepted again after the last erasure, and none otherwise |
| Sessions.StaleLookupMisdelivers | src/Server/Manage/messageCenter.cc:14-21 | From every consistent state in which a descriptor is served, five steps make the earlier lookup reach another user |
| Sessions.Server.DistributeWorker | src/Server/Reactor/MasterServer.cc:113-120 | Performs the accept step |
| Sessions.Server.AddUser | src/Server/Manage/User_manager.cc:11-17 | Performs the login step |
| Sessions.Server.RemoveUser | src/Server/Manage/User_manager.cc:20-26 | Performs the user part of removal, an unknown descriptor included |
| Sessions.Server.ForgetConnection | src/Server/Reactor/Worker.cc:93-94 | Performs the connection part of removal |
| Sessions.Server.Dispatch | src/Server/Manage/messageCenter.cc:14-21 | The connection written to, an unknown descriptor falling to worker 0 |
| ChatLog.PairKeySymmetric | src/Server/net/connection.cc:1450-1456 | Both directions of a conversation use one key |
| ChatLog.PairKeyInjective | src/Server/net/connection.cc:1450-1456 | For colon-free names two pairs share a key if and only if they are the same unordered pair |
| ChatLog.PairKeyText | src/Server/net/connection.cc:1450-1456 | The key is the greater name, a colon and the other name |
| ChatLog.GreaterIff | src/Server/net/connection.cc:1450 | Names are compared by the first place in which they differ |
| ChatLog.StoredIsSuffix | src/Server/Redis/RedisClient.cc:125-137 | Under any interleaving of pushes and trims the stored list is a suffix of everything pushed, holds the last hundred, and exceeds a hundred by at most the handlers between their two commands |
| ChatLog.PendingConcat | src/Server/Redis/RedisClient.cc:130-131 | The handlers between their two commands are counted up by pushes and down by trims |
| ChatLog.ReadsLast | src/Server/Redis/RedisClient.cc:140-165 | At any moment reading the last n, up to a hundred, gives the last n ever pushed |
| ChatLog.KeySelectsConversation | src/Server/net/connection.cc:1148-1196 | What was pushed under a pair's key is that pair's conversation and nothing else |
| ChatLog.ConversationConcat | src/Server/net/connection.cc:1441-1456 | A conversation is what was said before and then what was said after |
| ChatLog.ConversationOne | src/Server/net/connection.cc:1441-1456 | A message between the two, in either direction, adds its sender's name, a colon and its text; any other command adds nothing |
| ChatLog.HistoryReadsBack | src/Server/net/connection.cc:1148-1196 | Over any run of all users, each pair's history reads back all and only its own last hundred messages in order, whoever asks, and the online history its last ten |
| ChatLog.RedisClient.LTrim | src/Server/Redis/RedisClient.cc:131 | Performs the trim step |
| ChatLog.RedisClient.LRange | src/Server/Redis/RedisClient.cc:140-165 | The last n of a list, all of it when shorter, none when missing |
| ChatLog.RedisClient.SendMsg | src/Server/net/connection.cc:1441-1456 | The handler's two commands on the key of the pair |
| ChatLog.RedisClient.SendOfflineMsg | src/Server/net/connection.cc:1148-1171 | Reads the history of the two, whichever is named first |
| ChatLog.RedisClient.SendOnlineMsg | src/Server/net/connection.cc:1173-1196 | Reads the online history of the two |
| Commands.ParsedPlain | src/Server/FTP_server/command/FTPcommand.cc:12 | No name read from a command line contains a blank, so the test before taking a file off the queue always succeeds |
| Commands.ParseIsWords | src/Server/FTP_server/command/FTPcommand.cc:8-12 | The four strings read are the first four words of the line, empty where there are fewer |
| Commands.WordsConcat | src/Server/FTP_server/command/FTPcommand.cc:8-12 | The words of two strings with a blank between them are the words of both |
| Commands.NamesArriveIff | src/Server/FTP_server/command/FTPcommand.cc:12 | On one line, for any path and names, the names read are the intended ones if and only if neither contains a blank and the words of the path leave them in their places |
| Commands.SentAsMeantIff | src/Server/FTP_server/connect/FTPconnect.cc:21-34 | For any path and names the client sends, the server makes exactly one command on the intended pair if and only if, besides, the path has no line break |
| Commands.FirstLine | src/Server/FTP_server/connect/FTPconnect.cc:21-34 | Commands are what stands before each line break, empty ones left out; what does not end is none |
| FileQueue.KeyInjective | src/Server/Redis/RedisClient.cc:184-185 | Pairs with colon-free senders have one queue if and only if they are the same |
| FileQueue.KeySelectsPair | src/Server/Redis/RedisClient.cc:184-185 | What is uploaded under a pair's key is what that sender uploaded for that receiver and nothing else |
| FileQueue.SameQueue | src/Server/FTP_server/connect/Dataconnect.cc:74 | The line with which a receiver asks for a sender's file reads the queue that the sender's upload line wrote |
| FileQueue.UploadedByConcat | src/Server/FTP_server/connect/Dataconnect.cc:166-174 | A pair's uploads are those before and then those after |
| FileQueue.UploadedByOne | src/Server/FTP_server/connect/Dataconnect.cc:166-174 | A STOR line that names the pair adds its path, and nothing else does |
| FileQueue.EventEffect | src/Server/FTP_server/connect/Dataconnect.cc:68-174 | What each event does to the list and the paths handed over under every key |
| FileQueue.DownloadTakesUpload | src/Server/FTP_server/connect/Dataconnect.cc:68-113 | In every run a download takes a path that the sender it names uploaded for the receiver it names; without overlap, the first one not handed over yet |
| FileQueue.RemovedIsFirst | src/Server/Redis/RedisClient.cc:193-203 | LREM with count 1 takes out the first occurrence only, and nothing when there is none |
| FileQueue.FtpServer.DeleteFile | src/Server/Redis/RedisClient.cc:193-203 | Removes one occurrence; true exactly when there was one |
| FileQueue.FtpServer.FileCreat | src/Server/FTP_server/connect/Dataconnect.cc:166-174 | The new file's path is behind all others of the pair |
| FileQueue.FtpServer.SendFile | src/Server/FTP_server/connect/Dataconnect.cc:68-113 | Sends the file at the head of the list and takes that path off, the whole file being on the wire if and only if no send failed hard; a missing file, and bytes still to be sent, leave the list as it is |
| FileQueue.FtpServer.CmdExecute | src/Server/FTP_server/command/FTPcommand.cc:6-24 | Every command line does the upload step, the beginning or all of the download step on the pair it names, or nothing; a whole download has put the file on the wire if and only if no send failed hard |
| FileQueue.SequentialHeads | src/Server/FTP_server/connect/Dataconnect.cc:68-113 | Where downloads of a pair do not overlap, the one in progress is of the path at the head of the list, uploads meanwhile or not |
| FileQueue.UploadsAreHandedOver | src/Server/FTP_server/connect/Dataconnect.cc:68-174 | In every run in which downloads of a pair do not overlap, and for any names sent, the completed downloads followed by the list are the uploads in order |
| FileQueue.HandedOverIff | src/Server/FTP_server/connect/Dataconnect.cc:68-174 | In every run with any overlap, that is so if and only if every download that is done finds its path at the head of the list |
| FileQueue.OverlapIsHarmlessIff | src/Server/FTP_server/connect/Dataconnect.cc:68-113 | Two overlapping downloads of the same head, done after any uploads, keep it so if and only if the second path listed by then is the same |
| FileQueue.FtpServer.SendBlock | src/Server/FTP_server/connect/Dataconnect.cc:92-105 | A first part of the block goes out, in order and once; it is the whole block when the loop ends without an error, however the kernel cuts it |
| FileQueue.FtpServer.SendBytes | src/Server/FTP_server/connect/Dataconnect.cc:86-106 | When the loops end, a first part of every block is on the wire in order, and it is the whole file if and only if no send failed hard; until then the wire holds a prefix of the file |
| Passive.ValueUndoesDec | src/Client/UserFile/FTP_client.cc:288-300 | Reading decimal digits from the left undoes printing a number |
| Passive.FirstDigitWeighs | src/Client/UserFile/FTP_client.cc:288-300 | Digits are read in decimal notation: the one in front of n others weighs ten to the n |
| Passive.SendPassive | src/Server/FTP_server/connect/Dataconnect.cc:32-38 | The text built for an address and a port |
| Passive.ReplyNumbers | src/Server/FTP_server/connect/Dataconnect.cc:36 | The reply has code 227 and between its parentheses, separated by commas, the four numbers of the address and the high and low part of the port |
| Passive.HostNumbers | src/Client/UserFile/FTP_client.cc:258-282 | The dotted text is the four numbers of the address in order |
| Passive.ReplyShape | src/Server/FTP_server/connect/Dataconnect.cc:34-36 | In every reply the parenthesis is at the even offset 26, followed by an address with three commas that become dots, and two numbers that make up the port |
| Passive.FtpClient.ScanHost | src/Client/UserFile/FTP_client.cc:258-282 | The first inner loop ends behind the fourth comma with the dotted address and a NUL in the buffer |
| Passive.FtpClient.ScanPort | src/Client/UserFile/FTP_client.cc:284-310 | The second inner loop ends at the closing parenthesis with both numbers read |
| Passive.FtpClient.OpenPassiveMode | src/Client/UserFile/FTP_client.cc:244-316 | On every reply of the server the scan ends with the server's dotted address and `p1 * 256 + p2` equal to its port |

## Left out

- GeneratedCode.Message.InternalParse: nested messages are values put back into their member rather than objects updated through a pointer, so aliasing between them is not modelled; a runtime call that fails on a varint, a length or the bytes of a string is taken to leave its target as it was; a submessage cut off by the end of the buffer is parsed as far as it goes.
- GeneratedCode.Message.SerializeToString: strings are required to be valid UTF-8; the printer of the runtime only logs others.
- Wire.RecordsRoundTrip: the runtime's nesting limit of 100 and its reads past a chunk boundary into slop bytes are not modelled; the protobuf runtime is not part of this model beyond its record format.
- Framing.Unpack: a payload that does not parse as `chat::Chat` is still handed over here as bytes, as the code goes on with a default or partly filled message.
- Reading.Connection.ReadMessage: buffers on which the loop does not end are excluded, as there is no state after it; the handlers called for each payload are not part of that module, nor is the message kind.
- AuthServer.Client.HandleProcess: likewise for the buffers on which its loop does not end; a full read that fills the 4096-byte buffer is one chunk of any length, and edge-triggered epoll is not modelled.
- AuthServer.NothingLostIff: streams with a header of 2^32 - 4 or more that no malformed frame precedes are left to the two methods, since the stream alone does not determine what is reported behind such a header (`Framing.WrappedPayloadVaries`).
- GroupServer.Connection.GroupDecide: reading the index of a missing group dereferences an empty optional, so the group's existence is a precondition, as in all group handlers but `add_group`; deleting the pending notifications is not modelled.
- GroupServer.RedisClient.GetGroupManager: an absent field reads as an empty string, where the code dereferences an empty optional.
- Roster.Allowed: owner names have no ':', and a generated uuid is not in use; `Names.ColonClashes` shows that index keys are ambiguous otherwise.
- GroupLists.ListsKept: for the lists, owner names also do not contain the separator "   ---"; `Names.SeparatorClashes` shows that entries are ambiguous otherwise.
- GroupRuns.RolesInEveryRun: each handler is one atomic step; interleavings of the commands of two handlers are not modelled, nor is a failing Redis.
- Delivery.EachMemberOnce: the texts and times stored for offline users are parameters, and the packet's own contents are left out; the handler is atomic.
- Sessions.InvRun: accepting and handing a descriptor to its worker is one step; `checkHeart` closes its descriptor without the removal steps and is excluded; the online set in Redis and `register_worker` are left out.
- ChatLog.RedisClient.SendMsg: the offline notice and the dispatch after storing are left out; the group history uses the same two commands under the group's uuid.
- FileQueue.UploadsAreHandedOver: reading the first of an empty list is undefined in the code, so a download starts on a non-empty list only; a missing file, which ends the download without removing it, is no step; time and random parts of a path are parameters.
- FileQueue.FtpServer.CmdExecute: a line that arrives in parts, PASV before a transfer, LIST and QUIT, and receiving an uploaded file's bytes are left out.
- FileQueue.FtpServer.SendBytes: the kernel's answers are a finite list, and the method returns unfinished when they run out, where the code would wait or spin.
- Passive.FtpClient.OpenPassiveMode: the sockets opened before and after the scan are left out, and texts that are no reply of this server are not covered (the scan need not end on them).
- Redis keys of different kinds are kept apart by their prefixes; clashes between kinds are not modelled.
- Registration and login verification share one record for all clients and leave no useful invariant.
- `del_account`, friend handling, `LogoutResquest` and `Proto/user_friends.pb.cc`: easy or without a guarantee to state.
- `getAllFile`: its glob matching mixes users with common name prefixes.
- Menus, printing, mail, clocks, files on disk, sockets and threads.
