# Chat server registry and router, modelled in Dafny

This project models the server side of a small TCP chat. Clients register
under a display name. They then send command lines: private messages,
messages to everyone, and group commands (create, enter, leave, list, send
to a group). The server keeps two dictionaries:

- `clients`: connection to capitalized name;
- `groups`: group name to member list.

It answers each line by sending texts over the connections.

There are no sockets in the model:

- A connection is an opaque number (`Conn`).
- Every send is appended to an outbox of `(connection, text)` deliveries.
- A client's reads are a finite sequence of decoded strings.
- Timestamps are opaque strings passed in with each read.
- Python dictionaries keep their insertion order, so each is a `map` plus a
  sequence of its keys.
- `str.capitalize`, `upper` and `lower` act on ASCII letters only.
- `strip` removes Python's `isspace` characters.

The modules:

- `PyStr` writes out the Python string operations the server relies on:
  `strip`, `split(' ', n)`, `join`, `capitalize`, `upper`, `ljust`, `in` and
  `startswith`.
- `Utils` models `extract_command_parts` (utils.py). It gives an exact
  characterisation of the accepted commands and a split/join round trip.
- `Protocol` holds the response frames (`OK`/`ERROR` left-justified to ten
  characters) and how the console client reads them back.
- `Routing` holds the delivery functions: broadcast, first-match private
  delivery and group fan-out. Its lemmas prove the exactly-once reach
  properties.
- `ServerSpec` is a pure state machine for `Server` (server.py): one function
  per handler, and lemmas about what each handler promises. The lemmas cover
  the registry invariant, who receives what, and errors that change nothing.
- `ChatServer` is the class `Server`. It keeps the Python class's `clients`
  and `groups` dictionaries as fields and adds three more: the key order of
  each dictionary (`joined`, `created`) and the outbox of sends. The socket
  fields `host`, `port` and `server_socket` are left out with startup. The
  methods update these fields in place with loops, and each is proved to end
  in exactly the state its `ServerSpec` function gives.
- `ServiceSpec` and `Service` do the same for the older `ServerService`
  (module/server/server_service.py). Its methods act on the server object
  they are handed.

## Model

| member | source | states |
|---|---|---|
| `Utils.ExtractCommandParts` | utils.py:16-19 | a successful result has exactly `expected_parts` pieces |
| `Utils.ExtractSound` | utils.py:16-19 | on success the pieces are non-blank, only the last may hold a space, and joining them with one space gives back the command exactly (pieces unstripped) |
| `Utils.ExtractComplete` | utils.py:16-19 | conversely every such list of pieces is exactly what is extracted from its own join, so success is characterised without `split` |
| `Utils.ExtractRejectsBlankPiece` | utils.py:17-18 | an empty or whitespace-only piece (double space, trailing space) gives None |
| `Utils.ExtractRejectsMissingArgument` | utils.py:16-18 | a single word where two or more parts are expected (`-listargrupos` with 2) gives None |
| `PyStr.TrimLeft` | server.py:84 | the result is a suffix of the input, all removed characters are whitespace, and it does not start with whitespace |
| `PyStr.TrimRight` | server.py:84 | the result is a prefix of the input, all removed characters are whitespace, and it does not end with whitespace |
| `PyStr.StripEmptyIffBlank` | utils.py:17 | `s.strip()` is empty exactly when `s` is all whitespace |
| `PyStr.StripPadded` | client.py:57 | stripping a word followed by padding gives the word back |
| `PyStr.Ljust` | server.py:176 | `ljust` keeps the text as a prefix, pads with whitespace only, and reaches the width |
| `PyStr.Split` | utils.py:16 | a split always has at least one piece |
| `PyStr.SplitPieces` | utils.py:16 | `split(' ', n)` yields at most `n + 1` pieces, none but the last holding a space |
| `PyStr.JoinSplit` | utils.py:16 | joining the pieces of any split with one space gives back the string |
| `PyStr.SplitJoin` | utils.py:16 | splitting a join of space-free pieces with bound `len - 1` gives the pieces back |
| `PyStr.CapitalizeNormalForm` | server.py:70 | capitalizing keeps the length, is empty only for the empty string and is idempotent |
| `PyStr.CapitalizeIgnoresCase` | server.py:70-74 | two spellings differing only in letter case capitalize to the same name |
| `Protocol.FrameRoundTrip` | client.py:57-58 | a status of at most ten characters without outer spaces, framed by `ljust(10)`, reads back as that status and exactly the text after the field |
| `Protocol.SuccessRoundTrip` | server.py:174-177 | the success frame reads back as `OK` followed by a newline and the text |
| `Protocol.ErrorRoundTrip` | server.py:179-182 | the error frame reads back as `ERROR` followed by a newline and the text |
| `Protocol.StatusesDistinct` | server.py:174-182 | a success frame never reads back as an error status |
| `Routing.FanoutReach` | server.py:152-158 | over a duplicate-free key list, a broadcast delivers the text once to every key but the sender, and to nobody else |
| `Routing.FirstNamedSpec` | server.py:138-139 | the search returns a connection that is listed and carries the name, and finds nothing exactly when none does |
| `Routing.FirstNamedAt` | server.py:138-149 | the search stops at the first index whose connection carries the name |
| `Routing.FirstNamedUnique` | server.py:138-149 | with unique names, the search returns exactly the holder of the name |
| `Routing.MemberCopiesReach` | server.py:361-366 | the inner group loop reaches each connection named `member`, except the sender, exactly once |
| `Routing.GroupFanoutReach` | server.py:360-366 | a group send reaches each connected member but the sender exactly once, and nobody else |
| `Routing.RemoveFirstSpec` | server.py:219 | `list.remove` on a duplicate-free list removes exactly that element and keeps the list duplicate-free |
| `Routing.RemoveFirstAt` | server.py:219 | `list.remove` takes out the first occurrence at its index and keeps every other element in its order |
| `Routing.AppendFresh` | server.py:246 | appending an element not yet listed keeps the list duplicate-free |
| `Routing.NamesSpec` | server.py:195 | the listed names are exactly the registered ones, each once |
| `ServerSpec.Initial` | server.py:13-15 | the empty server satisfies the registry and group invariant |
| `ServerSpec.BroadcastReach` | server.py:152-158 | `_broadcast` gives every registered connection but the sender the text once; with no sender it reaches all |
| `ServerSpec.BindKeepsInv` | server.py:56 | binding an unused, capitalized, non-empty name keeps the invariant |
| `ServerSpec.RegistryBind` | server.py:56 | same, at the level of the `clients` map and its key order: the new key goes to the end |
| `ServerSpec.RegistryRemove` | server.py:161 | popping a connection from the map and the key order keeps the registry well formed |
| `ServerSpec.RemoveClientKeepsInv` | server.py:160-166 | removal keeps the invariant |
| `ServerSpec.RegisterRefusals` | server.py:69-78 | an empty name registers nothing and sends nothing; a capitalized name already held gets one `Usuário já conectado` error; otherwise the capitalized name is accepted |
| `ServerSpec.AdmitKeepsInv` | server.py:54-61 | admission keeps the invariant and binds exactly `conn` to the name |
| `ServerSpec.AdmitEffect` | server.py:54-61 | the newcomer first gets the `OK` response and nothing else; every other client gets `<name> entrou no chat.` once; groups are untouched |
| `ServerSpec.RemoveClientEffect` | server.py:160-166 | removal unbinds the connection, leaves groups alone, frees its name, and every remaining client gets `<name> saiu do chat.` once |
| `ServerSpec.CommandWithName` | utils.py:16-19 | a command word followed by a non-blank name splits into exactly those two parts |
| `ServerSpec.CreateGroupEffect` | server.py:266-275 | an existing group name only gets an error; otherwise the group is added, under the name as typed, with the creator as its only member, appended to the creation order, and the creator gets the `Grupo "g" criado com sucesso.` OK frame; nothing else changes |
| `ServerSpec.CreateGroupMalformed` | server.py:266-269 | a malformed creation line gets only the format error |
| `ServerSpec.CreateGroupKeepsInv` | server.py:270-274 | group creation keeps the invariant and the registry |
| `ServerSpec.EnterGroupKeepsInv` | server.py:236-248 | entering keeps the invariant (no member is listed twice) and the registry |
| `ServerSpec.EnterGroupEffect` | server.py:236-256 | a non-member is appended to the member list and gets the `entrou no grupo` OK frame, with nothing else changed; an existing member or a missing group gets only the matching error |
| `ServerSpec.ExitGroupKeepsInv` | server.py:212-222 | leaving keeps the invariant and the registry |
| `ServerSpec.ExitGroupEffect` | server.py:212-226 | a member is taken out at its position, the other members keep their order, other groups are unchanged, and the member gets the `não faz mais parte do grupo` OK frame; a non-member or a missing group gets only the matching error |
| `ServerSpec.GroupCommandKeepsInv` | server.py:110-126 | every group command keeps the invariant and the registry |
| `ServerSpec.GroupMembersOnlySent` | server.py:293-308 | listing a group's members only sends |
| `ServerSpec.GroupListReply` | server.py:278-291 | an empty table gets only the `Nenhum grupo cadastrado` ERROR frame; otherwise one OK frame lists every group once, one per line, in creation order, and nothing else changes |
| `ServerSpec.GroupMembersReply` | server.py:293-311 | `-listarusrgrupo g`: an unknown group and an empty group each get their own ERROR frame; otherwise one OK frame lists the members one per line in the order they entered |
| `ServerSpec.UserListReply` | server.py:193-202 | one OK frame names every connected user exactly once, one per line, in connection order, and nothing else changes |
| `ServerSpec.SendOnlySent` | server.py:179-182 | one response changes nothing but the outbox |
| `ServerSpec.PrivateMessageReach` | server.py:137-150 | a private message reaches exactly the holder of the capitalized name; otherwise the sender alone gets one not-found notice |
| `ServerSpec.GroupMessageReach` | server.py:351-366 | an unknown group gets exactly the `Erro: O grupo '<g>' não existe.` ERROR frame, and a non-member sender exactly the `não faz parte do grupo` one, and nothing else changes; otherwise each connected member but the sender gets `(sender, group, ts): text` once, and nobody else |
| `ServerSpec.MsgGroupFallThrough` | server.py:324-328 | after a four-part `-msg` line, the three-part `-msgt` test in the same handler cannot match |
| `ServerSpec.MessageCommandOnlySends` | server.py:313-339 | the message handler never changes the registry or the groups |
| `ServerSpec.MsgtCommandOnlySends` | server.py:326-339 | neither does its `-msgt` half |
| `ServerSpec.MsgInvalidTag` | server.py:314-319 | a four-part `-msg` with a tag other than U or G, in either case, gets exactly the `Tag inválida` error |
| `ServerSpec.MsgPrivateRoute` | server.py:314-323 | a well-formed `-msg U who text` line, tag in either case, is exactly the private message of the stamped text to `who` |
| `ServerSpec.MsgGroupRoute` | server.py:314-328 | a well-formed `-msg G group text` line, tag in either case, is exactly the group message; the three-part test it falls through to adds nothing |
| `ServerSpec.MsgtUnknownTag` | server.py:326-339 | `-msgt X text` with a tag other than C, D or T, in either case, gets exactly the `Comando de grupo desconhecido.` error |
| `ServerSpec.MessageCommandMsgt` | server.py:314-328 | a three-part `-msgt` line goes straight to the `-msgt` half |
| `ServerSpec.MsgtLine` | server.py:326-327 | `-msgt <tag> <text>` with a one-letter tag splits into its three words |
| `ServerSpec.MsgtBroadcast` | server.py:326-332 | `-msgt C text`, in either case, is the stamped broadcast to every client but the sender, whose reach is `ServerSpec.LoggedInMessageReach` |
| `ServerSpec.LoggedInMessageReach` | server.py:341-348 | the stamped text reaches every registered connection but the sender exactly once, and nobody else; only the outbox changes |
| `ServerSpec.MsgtReserved` | server.py:329-336 | `-msgt D` and `-msgt T` send nothing and change nothing |
| `ServerSpec.MsgMalformedIsSilent` | server.py:313-339 | a `-msg…` line that is neither a four-part `-msg` nor a three-part `-msgt` sends nothing |
| `ServerSpec.ThreeParts` | utils.py:16-19 | a three-word command line splits into its words |
| `ServerSpec.FourParts` | utils.py:16-19 | a four-word command line splits into its words |
| `ServerSpec.StepKeepsInv` | server.py:84-101 | one dispatched line keeps the invariant and never changes `clients` |
| `ServerSpec.ServeKeepsInv` | server.py:83-101 | so does the whole read loop |
| `ServerSpec.SessionEnds` | server.py:80-108 | however the loop ends, the connection is unbound, everyone else stays bound, and the invariant holds |
| `ServerSpec.ClosedPeerSpinsAsWritten` | server.py:84-86 | as written, any number of empty reads from a closed peer are skipped: the loop never leaves and nothing changes |
| `ServerSpec.ClosedPeerEndsSession` | server.py:84-86 | corrected, the first empty read ends the loop and the session removes the client |
| `ServerSpec.ConnectKeepsInv` | server.py:49-64 | every connection attempt, refused or served to the end, keeps the invariant and leaves the other clients bound |
| `ServerSpec.GroupWordWins` | server.py:94-99 | a `-msg` line containing `grupo` goes to the group handler and gets only the unknown-group-command error |
| `ServerSpec.GroupCommandUnknown` | server.py:112-126 | a first word that is no group command gets only the unknown-group-command error |
| `ServerSpec.NameReusableAfterRemoval` | server.py:160-161 | after its holder is removed, a name (typed in any case) registers again |
| `ServerSpec.NameTakenWhileConnected` | server.py:70-77 | while its holder is connected, the same name in any case is refused |
| `ServerSpec.ReceiveUsername` | server.py:69-78 | the state after `_receive_username` and the name it returns, empty when refused; its cases are stated by `ServerSpec.RegisterRefusals` |
| `ServerSpec.Bind` | server.py:56 | `clients[conn] = name`, a new key going to the end of the key order; that it keeps the invariant is `ServerSpec.BindKeepsInv` |
| `ServerSpec.Admit` | server.py:54-61 | the admission steps: success response, binding, join notice; their effect is `ServerSpec.AdmitEffect` |
| `ServerSpec.RemoveClient` | server.py:160-166 | `_remove_client`: pop the binding, then announce the departure; its effect is `ServerSpec.RemoveClientEffect` |
| `ServerSpec.CreateGroup` | server.py:258-276 | `_handle_create_group` with its three replies; stated by `ServerSpec.CreateGroupEffect` and `ServerSpec.CreateGroupMalformed` |
| `ServerSpec.EnterGroup` | server.py:228-256 | `_handle_enter_group` with its four replies; stated by `ServerSpec.EnterGroupEffect` |
| `ServerSpec.ExitGroup` | server.py:204-226 | `_handle_exit_group` with its four replies; stated by `ServerSpec.ExitGroupEffect` |
| `ServerSpec.GroupList` | server.py:278-291 | `_send_group_list`: the error for an empty table, else the group names in creation order; stated by `ServerSpec.GroupListReply` |
| `ServerSpec.GroupMembers` | server.py:293-311 | `_handler_list_users_group` with its four replies; stated by `ServerSpec.GroupMembersReply` |
| `ServerSpec.UserList` | server.py:193-202 | `_send_user_list`: the names of all clients in connection order; stated by `ServerSpec.UserListReply` |
| `ServerSpec.GroupCommand` | server.py:110-129 | dispatch on the first word of a group line; stated by `ServerSpec.GroupCommandUnknown` and `ServerSpec.GroupCommandKeepsInv` |
| `ServerSpec.PrivateMessage` | server.py:137-150 | `_send_private_message`: deliver to the first holder of the capitalized name, else a notice to the sender; stated by `ServerSpec.PrivateMessageReach` |
| `ServerSpec.LoggedInMessage` | server.py:341-348 | `handle_message_logged_in_users`: the stamped text to every client but the sender; stated by `ServerSpec.LoggedInMessageReach` |
| `ServerSpec.GroupMessage` | server.py:351-366 | `_handle_group_message`: two errors, else the nested member/client loop; stated by `ServerSpec.GroupMessageReach` |
| `ServerSpec.MessageCommand` | server.py:313-339 | `_handle_command_message` with the four-part test falling through to the three-part one; stated by `ServerSpec.MsgPrivateRoute`, `ServerSpec.MsgGroupRoute`, `ServerSpec.MsgInvalidTag` and the `-msgt` lemmas |
| `ServerSpec.MsgtCommand` | server.py:326-339 | the three-part `-msgt` half; stated by `ServerSpec.MsgtBroadcast` `ServerSpec.MsgtReserved` and `ServerSpec.MsgtUnknownTag` |
| `ServerSpec.RouteOf` | server.py:87-101 | which handler a stripped line goes to, in the order the loop tests; stated by `ServerSpec.GroupWordWins` |
| `ServerSpec.ReadKindOf` | server.py:84-86 | the corrected read classification: an empty read is a closed peer; stated by `ServerSpec.ClosedPeerEndsSession` |
| `ServerSpec.ReadKindAsWritten` | server.py:84-86 | the read classification as written: every empty stripped read is skipped; stated by `ServerSpec.ClosedPeerSpinsAsWritten` |
| `ServerSpec.StepOn` | server.py:84-101 | one turn of the read loop and whether it leaves; stated by `ServerSpec.StepKeepsInv` |
| `ServerSpec.Serve` | server.py:83-101 | the read loop over a finite run of reads; stated by `ServerSpec.ServeKeepsInv` |
| `ServerSpec.Session` | server.py:80-108 | the loop, then removal in the `finally`; stated by `ServerSpec.SessionEnds` |
| `ServerSpec.Connect` | server.py:49-64 | a whole connection: name exchange, admission and session; stated by `ServerSpec.ConnectKeepsInv` |
| `ChatServer.Server.constructor` | server.py:10-15 | the new server is empty and valid |
| `ChatServer.Server.Send` | server.py:185-187 | one send appends one delivery and changes nothing else |
| `ChatServer.Server.SendSuccessResponse` | server.py:174-177 | sends the `OK` frame |
| `ChatServer.Server.SendErrorResponse` | server.py:179-182 | sends the `ERROR` frame |
| `ChatServer.Server.Broadcast` | server.py:152-158 | the loop over a snapshot of the keys ends in `ServerSpec.Broadcast` |
| `ChatServer.Server.ReceiveUsername` | server.py:69-78 | returns the name and state `ServerSpec.ReceiveUsername` gives |
| `ChatServer.Server.RemoveClient` | server.py:160-166 | ends in `ServerSpec.RemoveClient` and keeps the invariant |
| `ChatServer.Server.SendPrivateMessage` | server.py:137-150 | ends in `ServerSpec.PrivateMessage` |
| `ChatServer.Server.FindRecipient` | server.py:138-139 | the walrus loop finds the first holder of the capitalized name, and ends with the typed name only when no client is registered |
| `ChatServer.Server.HandlePrivateMessage` | server.py:131-135 | the stamped text goes through the private send |
| `ChatServer.Server.HandleMessageLoggedInUsers` | server.py:341-348 | the loop ends in `ServerSpec.LoggedInMessage` |
| `ChatServer.Server.HandleGroupMessage` | server.py:351-366 | ends in `ServerSpec.GroupMessage` |
| `ChatServer.Server.SendToMembers` | server.py:360-366 | the outer member loop appends the group fan-out and changes no other field |
| `ChatServer.Server.SendToMember` | server.py:361-366 | the inner loop appends one member's copies and changes no other field |
| `ChatServer.Server.HandleCreateGroup` | server.py:258-276 | ends in `ServerSpec.CreateGroup` |
| `ChatServer.Server.HandleEnterGroup` | server.py:228-256 | ends in `ServerSpec.EnterGroup` |
| `ChatServer.Server.HandleExitGroup` | server.py:204-226 | ends in `ServerSpec.ExitGroup` |
| `ChatServer.Server.SendGroupList` | server.py:278-291 | ends in `ServerSpec.GroupList` |
| `ChatServer.Server.ListUsersGroup` | server.py:293-311 | ends in `ServerSpec.GroupMembers` |
| `ChatServer.Server.SendUserList` | server.py:193-202 | ends in `ServerSpec.UserList` |
| `ChatServer.Server.HandleCommandGroup` | server.py:110-129 | ends in `ServerSpec.GroupCommand` |
| `ChatServer.Server.HandleCommandMessage` | server.py:313-339 | ends in `ServerSpec.MessageCommand` |
| `ChatServer.Server.HandleLine` | server.py:87-101 | dispatches one stripped line as `ServerSpec.StepOn` does and leaves `clients` alone |
| `ChatServer.Server.ReadOnce` | server.py:84-101 | one read, classified as `ServerSpec.ReadKindOf` does |
| `ChatServer.Server.ReadLoop` | server.py:83-101 | the loop ends in `ServerSpec.Serve` and leaves `clients` alone |
| `ChatServer.Server.HandleClientMessages` | server.py:80-108 | ends in `ServerSpec.Session`: the loop, then removal |
| `ChatServer.Server.HandleNewClient` | server.py:49-64 | ends in `ServerSpec.Connect` and keeps the invariant |
| `ChatServer.Server.Admit` | server.py:54-61 | response, binding and join notice end in `ServerSpec.Admit` |
| `ServiceSpec.BroadcastReach` | module/server/server_service.py:66-72 | `_broadcast` gives every registered connection but the sender the text once |
| `ServiceSpec.RegisterRefusals` | module/server/server_service.py:19-28 | an empty name sends nothing; a taken name gets one bare `ERROR` frame; otherwise the capitalized name goes on |
| `ServiceSpec.RefusalReadsBack` | module/server/server_service.py:24-26 | the bare refusal frame reads back as `ERROR` and `Usuário já conectado`, with no newline |
| `ServiceSpec.AdmitKeepsInv` | module/server/server_service.py:30-37 | admission keeps the registry well formed and binds exactly `conn` |
| `ServiceSpec.AdmitEffect` | module/server/server_service.py:30-37 | the newcomer gets the bare `OK` frame and not its own join notice; everyone else gets `<name> entrou no chat.` once |
| `ServiceSpec.RemoveClientKeepsInv` | module/server/server_service.py:87-93 | removal unbinds exactly `conn` and keeps the registry well formed |
| `ServiceSpec.RemoveClientEffect` | module/server/server_service.py:87-93 | every remaining client gets `<name> saiu do chat.` once; the leaving connection gets nothing |
| `ServiceSpec.PrivateMessageReach` | module/server/server_service.py:74-85 | delivery goes only to the holder of the capitalized name; otherwise the sender alone gets the notice naming the recipient as typed |
| `ServiceSpec.StepKeepsInv` | module/server/server_service.py:48-57 | one read keeps the registry and never changes `clients` |
| `ServiceSpec.ServeKeepsInv` | module/server/server_service.py:47-60 | so does the whole loop |
| `ServiceSpec.SessionEnds` | module/server/server_service.py:44-64 | however the loop ends, the connection is removed and the registry stays well formed |
| `ServiceSpec.ConnectKeepsInv` | module/server/server_service.py:17-40 | every connection attempt keeps the registry and leaves exactly the other clients bound |
| `ServiceSpec.BlankReadEnds` | module/server/server_service.py:48-60 | a read that strips to nothing ends the loop at once; later reads are ignored |
| `ServiceSpec.PublicLine` | module/server/server_service.py:54-57 | any other non-`@` line goes to every client but the sender as `name: line`, and the loop goes on |
| `ServiceSpec.PrivateLineSplit` | module/server/server_service.py:51-52 | `@who text` splits into `@who` and the text |
| `ServiceSpec.PrivateLineEndsSessionAsWritten` | module/server/server_service.py:50-53 | as written, an `@who text` line ends the session and sends nothing |
| `ServiceSpec.PrivateLineDelivers` | module/server/server_service.py:50-53 | corrected, `@who text` sends `name: text` only to the holder of `who` capitalized (or the notice to the sender), and the loop goes on |
| `ServiceSpec.BareMentionUnsplit` | module/server/server_service.py:51 | a bare `@who` splits into a single piece |
| `ServiceSpec.BareMentionEndsSessionAsWritten` | module/server/server_service.py:51 | as written, the unpacking of a bare `@who` fails and the session ends, sending nothing |
| `ServiceSpec.BareMentionDelivers` | module/server/server_service.py:50-53 | corrected, a bare `@who` is a private message with empty text and the loop goes on |
| `ServiceSpec.ReceiveName` | module/server/server_service.py:19-28 | the name checks of `handle_new_client`; stated by `ServiceSpec.RegisterRefusals` |
| `ServiceSpec.Admit` | module/server/server_service.py:29-37 | bare success frame, binding, join notice; stated by `ServiceSpec.AdmitEffect` |
| `ServiceSpec.RemoveClient` | module/server/server_service.py:87-93 | pop the binding, then announce the departure; stated by `ServiceSpec.RemoveClientEffect` |
| `ServiceSpec.PrivateMessage` | module/server/server_service.py:74-85 | deliver to the first holder of the capitalized name, else a notice naming the recipient as typed; stated by `ServiceSpec.PrivateMessageReach` |
| `ServiceSpec.LineActionOf` | module/server/server_service.py:48-60 | the corrected reading of one stripped line: leave, private or public; stated by `ServiceSpec.PrivateLineDelivers` and `ServiceSpec.BareMentionDelivers` |
| `ServiceSpec.LineActionAsWritten` | module/server/server_service.py:48-60 | the line as the code treats it: any `@` line raises and ends the loop; stated by the two `…AsWritten` lemmas |
| `ServiceSpec.StepOn` | module/server/server_service.py:48-60 | one turn of the loop and whether it leaves; stated by `ServiceSpec.StepKeepsInv` |
| `ServiceSpec.Serve` | module/server/server_service.py:47-60 | the loop over a finite run of reads; stated by `ServiceSpec.ServeKeepsInv` |
| `ServiceSpec.Session` | module/server/server_service.py:44-64 | the loop, then removal in the `finally`; stated by `ServiceSpec.SessionEnds` |
| `ServiceSpec.Connect` | module/server/server_service.py:17-40 | a whole connection; stated by `ServiceSpec.ConnectKeepsInv` |
| `Service.Server.constructor` | module/server/server_service.py:5 | a new server object, valid and with no clients (its class lives in server_model.py, which is not part of this model) |
| `Service.Server.Send` | module/server/server_service.py:70 | one `client_socket.send` appends one delivery and changes nothing else |
| `Service.Broadcast` | module/server/server_service.py:66-72 | the loop over a snapshot of the keys ends in `ServiceSpec.Broadcast` |
| `Service.SendPrivateMessage` | module/server/server_service.py:74-85 | ends in `ServiceSpec.PrivateMessage` |
| `Service.FindRecipient` | module/server/server_service.py:75-76 | the loop finds the first connection holding the capitalized name |
| `Service.RemoveClient` | module/server/server_service.py:87-93 | ends in `ServiceSpec.RemoveClient` and keeps the registry |
| `Service.HandleNewClient` | module/server/server_service.py:17-40 | ends in `ServiceSpec.Connect` and keeps the registry |
| `Service.Admit` | module/server/server_service.py:29-37 | success frame, binding and join notice end in `ServiceSpec.Admit` |
| `Service.HandleClientMessages` | module/server/server_service.py:44-64 | ends in `ServiceSpec.Session`: the loop, then removal |
| `Service.ReadLoop` | module/server/server_service.py:47-60 | the loop ends in `ServiceSpec.Serve` |
| `Service.ReadOnce` | module/server/server_service.py:48-60 | one read performs `ServiceSpec.LineActionOf` |

## Left out

- Sockets and their framing are not modelled: `send`, `recv`, `close`, UTF-8
  encoding, and the assumption that one `recv` is one message. A read is a
  decoded string and a send is an outbox entry. Closing a refused connection
  has no counterpart.
- The end of the read sequence stands for the connection error that ends a
  real session: `ConnectionResetError`, `ConnectionAbortedError` and
  `BrokenPipeError`.
- Transport failures inside a send are not modelled. This covers
  `send_message_safe` swallowing errors, the removal of a client whose send
  fails in `_broadcast`, `_send_private_message` and the group loops, and the
  `except` clauses around `_send_user_list` and `_send_group_list`. In the
  model every send succeeds.
- The generic `except Exception` handlers are not modelled. They are
  server.py:104-106 ("Erro interno no servidor."), server.py:127-129 and the
  outer handlers of both `_handle_new_client`s. No modelled step raises into
  them, except the two service defects listed under Findings.
- Threads and concurrency are left out: one thread per connection, and
  interleaved handlers sharing `clients` and `groups`. Sessions are modelled
  one at a time.
- `handle_message_logged_in_users` (server.py:341-348) calls `datetime.now()`
  inside its loop, once per recipient. The model stamps every copy of a
  `-msgt C` line with the one time of the read, so in the model every
  recipient gets the same text; in the source the copies can differ in the
  seconds when the loop crosses a second boundary.
- `datetime.now()` is an opaque string given with each read. The two formats
  are not modelled: `%d/%m/%Y %H:%M:%S` for private messages and
  `%d/%m/%Y - %H:%M:%S` for `-msgt C` and group messages.
- `str.capitalize`, `upper` and `lower` are modelled for ASCII letters only.
  Unicode case mapping is left out.
- Logging through `print` and colorama is left out, apart from the colour
  codes of the not-found notice, which is sent to the client.
- Startup, accepting connections and shutdown are left out: `run`,
  `_start_server`, `_accept_connections`, `_shutdown` and
  `ServerService.shutdown`. They only bind, accept, start threads and close
  sockets.
- The client modules and server_controller.py are not part of this model.
- module/server/server_model.py is not part of this model. Its `Server` is
  represented only by the `clients` dictionary the service uses.
- `ServerSpec.ReadKindOf`: the server's read loop is modelled with the
  correction of Findings row 1, so an empty raw read ends the session. The
  as-written behaviour is `ServerSpec.ReadKindAsWritten`.
- `ServiceSpec.LineActionOf`: the service's `@` branch is modelled as
  intended, per Findings rows 2 and 3. The as-written behaviour is
  `ServiceSpec.LineActionAsWritten`.

## Findings

| source | as written | input that shows it | evidently intended | confidence | as-written member | corrected member |
|---|---|---|---|---|---|---|
| server.py:84-86 | an empty stripped read is skipped with `continue`, and a closed peer returns empty reads forever | the client closes its socket: every later `recv` returns `b""` | the loop ends (as in module/server/server_service.py:58-60), the client is removed and its name freed | high; not executed | `ServerSpec.ClosedPeerSpinsAsWritten` | `ServerSpec.ClosedPeerEndsSession` |
| module/server/server_service.py:53 | `_send_private_message` is called without its `server` argument, so every `@` line raises TypeError, leaves the loop and removes the client | `@bob hi` from a registered client | `name: hi` is delivered to Bob and the session goes on | high; not executed | `ServiceSpec.PrivateLineEndsSessionAsWritten` | `ServiceSpec.PrivateLineDelivers` |
| module/server/server_service.py:51 | unpacking `split(' ', 1)` into two names raises ValueError when the line has no space | `@bob` | a private message with empty text (nothing else is evident; the session should not end) | medium; not executed | `ServiceSpec.BareMentionEndsSessionAsWritten` | `ServiceSpec.BareMentionDelivers` |
