/**
 * The `Server` class of server.py: the `clients` and `groups` dictionaries
 * updated in place by the connection handlers. A Python dict is modelled by a
 * map plus the insertion order of its keys (`joined` for `clients`, `created`
 * for `groups`), and every `send` on a socket is appended to `outbox`.
 *
 * Each method performs its handler step by step and promises to end in the
 * state the matching ServerSpec function describes; what those functions
 * guarantee is proved in ServerSpec.
 */
module ChatServer {
  import opened PyStr
  import opened Utils
  import opened Protocol
  import opened Routing
  import opened ServerSpec

  class Server {
    var clients: map<Conn, string>
    var joined: seq<Conn>
    var groups: map<string, seq<string>>
    var created: seq<string>
    var outbox: seq<Delivery>

    function Model(): Chat
      reads this
    {
      Chat(clients, joined, groups, created, outbox)
    }

    ghost predicate Valid()
      reads this
    {
      Inv(Model())
    }

    constructor()
      ensures Valid() && Model() == Initial()
    {
      clients := map[];
      joined := [];
      groups := map[];
      created := [];
      outbox := [];
    }

    /** `client_socket.send(text)`. */
    method Send(to: Conn, text: string)
      modifies this
      ensures Model() == ServerSpec.Send(old(Model()), to, text)
      ensures old(Valid()) ==> Valid()
    {
      outbox := outbox + [Delivery(to, text)];
    }

    /** `_send_success_response`. */
    method SendSuccessResponse(to: Conn, text: string)
      modifies this
      ensures Model() == Respond(old(Model()), to, text)
      ensures old(Valid()) ==> Valid()
    {
      Send(to, Ljust(Ok, StatusWidth) + "\n" + text);
    }

    /** `_send_error_response`. */
    method SendErrorResponse(to: Conn, text: string)
      modifies this
      ensures Model() == Reject(old(Model()), to, text)
      ensures old(Valid()) ==> Valid()
    {
      Send(to, Ljust(Error, StatusWidth) + "\n" + text);
    }

    /** `_broadcast`: send to every key of a snapshot of `clients` except the sender. */
    method Broadcast(text: string, sender: Option<Conn>)
      requires Valid()
      modifies this
      ensures Valid() && Model() == ServerSpec.Broadcast(old(Model()), text, sender)
    {
      var targets := joined;
      var i := 0;
      while i < |targets|
        invariant 0 <= i <= |targets|
        invariant clients == old(clients) && joined == old(joined) && groups == old(groups) && created == old(created)
        invariant outbox == old(outbox) + Fanout(targets[..i], sender, text)
      {
        var target := targets[i];
        assert targets[..i + 1][..i] == targets[..i];
        if sender != Some(target) {
          Send(target, text);
        }
        i := i + 1;
      }
      assert targets[..i] == targets;
    }

    /** `_receive_username`: the returned name is empty when the connection is refused. */
    method ReceiveUsername(conn: Conn, raw: string) returns (username: string)
      requires Valid()
      modifies this
      ensures Valid() && (Model(), username) == ServerSpec.ReceiveUsername(old(Model()), conn, raw)
    {
      username := Capitalize(raw);
      if username == [] {
        return [];
      }
      if username in clients.Values {
        SendErrorResponse(conn, "Usuário já conectado");
        return [];
      }
    }

    /** `_remove_client`. */
    method RemoveClient(conn: Conn)
      requires Valid()
      modifies this
      ensures Valid() && Model() == ServerSpec.RemoveClient(old(Model()), conn)
    {
      var username := if conn in clients then clients[conn] else Unknown;
      RemoveClientKeepsInv(Model(), conn);
      clients := clients - {conn};
      joined := RemoveFirst(joined, conn);
      RemoveFirstSpec(old(joined), conn);
      Broadcast(username + " saiu do chat.", None);
    }

    /**
     * `_send_private_message`: send to the first connection registered under
     * the capitalized recipient, or the "not found" notice to the sender.
     */
    method SendPrivateMessage(recipient: string, sender: Conn, message: string)
      requires Valid()
      modifies this
      ensures Valid() && Model() == PrivateMessage(old(Model()), recipient, sender, message)
    {
      var found, name := FindRecipient(recipient);
      if found.Some? {
        Send(found.value, message);
      } else {
        Send(sender, NotFoundNotice(name));
      }
    }

    /**
     * The search loop of `_send_private_message`. The recipient is
     * re-capitalized on every turn (the walrus in the comparison), so the name
     * it ends with is the typed one only when no client is registered.
     */
    method FindRecipient(recipient: string) returns (found: Option<Conn>, name: string)
      ensures found == FirstNamed(joined, clients, Capitalize(recipient))
      ensures name == if joined == [] then recipient else Capitalize(recipient)
    {
      name := recipient;
      var i := 0;
      CapitalizeNormalForm(recipient);
      while i < |joined|
        invariant 0 <= i <= |joined|
        invariant name == if i == 0 then recipient else Capitalize(recipient)
        invariant FirstNamed(joined, clients, Capitalize(recipient)) == FirstNamed(joined[i..], clients, Capitalize(recipient))
      {
        var c := joined[i];
        name := Capitalize(name);
        if c in clients && clients[c] == name {
          return Some(c), name;
        }
        assert joined[i..][1..] == joined[i + 1..];
        i := i + 1;
      }
      found := None;
    }

    /** `_handle_private_message`. */
    method HandlePrivateMessage(recipient: string, senderName: string, sender: Conn, msg: string, now: string)
      requires Valid()
      modifies this
      ensures Valid() && Model() == PrivateMessage(old(Model()), recipient, sender, StampedText(senderName, now, msg))
    {
      SendPrivateMessage(recipient, sender, "(" + senderName + ", " + now + "): " + msg);
    }

    /** `handle_message_logged_in_users`. */
    method HandleMessageLoggedInUsers(sender: Conn, senderName: string, msg: string, now: string)
      requires Valid()
      modifies this
      ensures Valid() && Model() == LoggedInMessage(old(Model()), sender, senderName, msg, now)
    {
      var text := StampedText(senderName, now, msg);
      var i := 0;
      while i < |joined|
        invariant 0 <= i <= |joined|
        invariant clients == old(clients) && joined == old(joined) && groups == old(groups) && created == old(created)
        invariant outbox == old(outbox) + Fanout(joined[..i], Some(sender), text)
      {
        assert joined[..i + 1][..i] == joined[..i];
        if joined[i] != sender {
          Send(joined[i], text);
        }
        i := i + 1;
      }
      assert joined[..i] == joined;
    }

    /** `_handle_group_message`: for each member, every connection under that name except the sender. */
    method HandleGroupMessage(group: string, senderName: string, sender: Conn, msg: string, now: string)
      requires Valid()
      modifies this
      ensures Valid() && Model() == GroupMessage(old(Model()), group, senderName, sender, msg, now)
    {
      if group !in groups {
        SendErrorResponse(sender, "Erro: O grupo '" + group + "' não existe.");
        return;
      }
      if senderName !in groups[group] {
        SendErrorResponse(sender, "Erro: Você ('" + senderName + "') não faz parte do grupo '" + group + "'!");
        return;
      }
      SendToMembers(groups[group], sender, GroupText(senderName, group, now, msg));
    }

    /** The outer loop of `_handle_group_message`: `for member in members`. */
    method SendToMembers(members: seq<string>, sender: Conn, text: string)
      modifies this
      ensures clients == old(clients) && joined == old(joined) && groups == old(groups) && created == old(created)
      ensures outbox == old(outbox) + GroupFanout(members, joined, clients, sender, text)
    {
      var i := 0;
      while i < |members|
        invariant 0 <= i <= |members|
        invariant clients == old(clients) && joined == old(joined) && groups == old(groups) && created == old(created)
        invariant outbox == old(outbox) + GroupFanout(members[..i], joined, clients, sender, text)
      {
        SendToMember(members[i], sender, text);
        assert members[..i + 1][..i] == members[..i];
        i := i + 1;
      }
      assert members[..i] == members;
    }

    /** The inner loop of `_handle_group_message`: every connection registered under `member`, except the sender. */
    method SendToMember(member: string, sender: Conn, text: string)
      modifies this
      ensures clients == old(clients) && joined == old(joined) && groups == old(groups) && created == old(created)
      ensures outbox == old(outbox) + MemberCopies(member, joined, clients, sender, text)
    {
      var j := 0;
      while j < |joined|
        invariant 0 <= j <= |joined|
        invariant clients == old(clients) && joined == old(joined) && groups == old(groups) && created == old(created)
        invariant outbox == old(outbox) + MemberCopies(member, joined[..j], clients, sender, text)
      {
        var c := joined[j];
        assert joined[..j + 1][..j] == joined[..j];
        if c in clients && member == clients[c] && c != sender {
          Send(c, text);
        }
        j := j + 1;
      }
      assert joined[..j] == joined;
    }

    /** `_handle_create_group`. */
    method HandleCreateGroup(conn: Conn, username: string, line: string)
      requires Valid()
      modifies this
      ensures Valid() && Model() == CreateGroup(old(Model()), conn, username, line)
    {
      CreateGroupKeepsInv(Model(), conn, username, line);
      var parts := ExtractCommandParts(line, 2);
      if parts.None? {
        SendErrorResponse(conn, "Formato inválido. Use: -criargrupo NOME_DO_GRUPO");
        return;
      }
      var g := parts.value[1];
      if g in groups {
        SendErrorResponse(conn, "Erro: O grupo '" + g + "' já existe.");
        return;
      }
      groups := groups[g := [username]];
      created := created + [g];
      AppendFresh(old(created), g);
      SendSuccessResponse(conn, "Grupo \"" + g + "\" criado com sucesso.");
    }

    /** `_handle_enter_group`. */
    method HandleEnterGroup(conn: Conn, username: string, line: string)
      requires Valid()
      modifies this
      ensures Valid() && Model() == EnterGroup(old(Model()), conn, username, line)
    {
      var parts := ExtractCommandParts(line, 2);
      if parts.None? {
        SendErrorResponse(conn, "Formato inválido. Use: -entrargrupo NOME_DO_GRUPO");
        return;
      }
      var g := parts.value[1];
      if g in groups {
        if username in groups[g] {
          SendErrorResponse(conn, "Erro: O usuário '" + username + "' já participa do grupo " + g + ".");
          return;
        }
        AppendFresh(groups[g], username);
        groups := groups[g := groups[g] + [username]];
        SendSuccessResponse(conn, "Você('" + username + "') entrou no grupo " + g + ".");
        return;
      }
      SendErrorResponse(conn, "Erro: O grupo '" + g + "' não existe.");
    }

    /** `_handle_exit_group`. */
    method HandleExitGroup(conn: Conn, username: string, line: string)
      requires Valid()
      modifies this
      ensures Valid() && Model() == ExitGroup(old(Model()), conn, username, line)
    {
      var parts := ExtractCommandParts(line, 2);
      if parts.None? {
        SendErrorResponse(conn, "Formato inválido. Use: -sairgrupo NOME_DO_GRUPO");
        return;
      }
      var g := parts.value[1];
      if g in groups {
        if username in groups[g] {
          RemoveFirstSpec(groups[g], username);
          groups := groups[g := RemoveFirst(groups[g], username)];
          SendSuccessResponse(conn, "Você('" + username + "') não faz mais parte do grupo " + g + ".");
          return;
        }
        SendErrorResponse(conn, "Erro: O usuário '" + username + "' não faz parte desse grupo.");
        return;
      }
      SendErrorResponse(conn, "Erro: O grupo '" + g + "' não existe.");
    }

    /** `_send_group_list`. */
    method SendGroupList(conn: Conn)
      requires Valid()
      modifies this
      ensures Valid() && Model() == GroupList(old(Model()), conn)
    {
      if |groups| == 0 {
        SendErrorResponse(conn, "Nenhum grupo cadastrado");
        return;
      }
      SendSuccessResponse(conn, "Grupos:\n" + Join("\n", created));
    }

    /** `_handler_list_users_group`. */
    method ListUsersGroup(conn: Conn, line: string)
      requires Valid()
      modifies this
      ensures Valid() && Model() == GroupMembers(old(Model()), conn, line)
    {
      var parts := ExtractCommandParts(line, 2);
      if parts.None? {
        SendErrorResponse(conn, "Formato inválido. Use: -listarusrgrupo NOME_DO_GRUPO");
        return;
      }
      var g := parts.value[1];
      if g !in groups {
        SendErrorResponse(conn, "Grupo \"" + g + "\" não cadastrado");
        return;
      }
      var users := groups[g];
      if users == [] {
        SendErrorResponse(conn, "Nenhum usuário no grupo '" + g + "'.");
        return;
      }
      SendSuccessResponse(conn, "Usuários do grupo: \n" + Join("\n", users));
    }

    /** `_send_user_list`. */
    method SendUserList(conn: Conn)
      requires Valid()
      modifies this
      ensures Valid() && Model() == UserList(old(Model()), conn)
    {
      SendSuccessResponse(conn, "Usuários online:\n" + Join("\n", Names(joined, clients)));
    }

    /** `_handle_command_group`: dispatch on the first word. */
    method HandleCommandGroup(conn: Conn, username: string, line: string)
      requires Valid()
      modifies this
      ensures Valid() && Model() == GroupCommand(old(Model()), conn, username, line)
    {
      var head := Split(line, 1)[0];
      if head == "-criargrupo" {
        HandleCreateGroup(conn, username, line);
      } else if head == "-entrargrupo" {
        HandleEnterGroup(conn, username, line);
      } else if head == "-listargrupos" {
        SendGroupList(conn);
      } else if head == "-listarusrgrupo" {
        ListUsersGroup(conn, line);
      } else if head == "-sairgrupo" {
        HandleExitGroup(conn, username, line);
      } else {
        SendErrorResponse(conn, "Comando de grupo desconhecido.");
      }
    }

    /** `_handle_command_message`, including the fall-through after a group message. */
    method HandleCommandMessage(conn: Conn, username: string, line: string, now: string)
      requires Valid()
      modifies this
      ensures Valid() && Model() == MessageCommand(old(Model()), conn, username, line, now)
    {
      var p4 := ExtractCommandParts(line, 4);
      if p4.Some? {
        if p4.value[0] == "-msg" {
          var tag := Upper(p4.value[1]);
          if tag != "U" && tag != "G" {
            SendErrorResponse(conn, "Tag inválida. Use U (usuário) ou G (grupo).");
            return;
          }
          if tag == "U" {
            HandlePrivateMessage(p4.value[2], username, conn, p4.value[3], now);
            return;
          }
          HandleGroupMessage(p4.value[2], username, conn, p4.value[3], now);
        }
      }
      var p3 := ExtractCommandParts(line, 3);
      if p3.Some? {
        if p3.value[0] == "-msgt" {
          var tag := Upper(p3.value[1]);
          if tag == "C" {
            HandleMessageLoggedInUsers(conn, username, p3.value[2], now);
          } else if tag == "D" || tag == "T" {
          } else {
            SendErrorResponse(conn, "Comando de grupo desconhecido.");
          }
        }
      }
    }

    /**
     * `_handle_client_messages` over a finite run of reads, then `_remove_client`.
     * An empty read ends the loop (the corrected behaviour, see ReadKindOf).
     */
    method HandleClientMessages(conn: Conn, input: seq<Read>)
      requires Valid()
      modifies this
      ensures Valid() && Model() == Session(old(Model()), conn, input)
    {
      var username := if conn in clients then clients[conn] else Unknown;
      ReadLoop(conn, username, input);
      RemoveClient(conn);
    }

    /**
     * The `while True` loop of `_handle_client_messages`: one ReadOnce per read
     * until a read asks to leave or the reads run out.
     */
    method ReadLoop(conn: Conn, username: string, input: seq<Read>)
      requires Valid()
      modifies this
      ensures Valid() && clients == old(clients)
      ensures Model() == Serve(old(Model()), conn, username, input, ReadKindOf).0
    {
      var i := 0;
      while i < |input|
        invariant 0 <= i <= |input|
        invariant Valid() && clients == old(clients)
        invariant Serve(old(Model()), conn, username, input, ReadKindOf).0
                  == Serve(Model(), conn, username, input[i..], ReadKindOf).0
      {
        ghost var before := Model();
        assert input[i..][0] == input[i] && input[i..][1..] == input[i + 1..];
        var leave := ReadOnce(conn, username, input[i]);
        ServeStep(before, conn, username, input[i..], ReadKindOf, Model(), leave);
        if leave {
          break;
        }
        i := i + 1;
      }
    }

    /** One turn of the `while True` loop: `recv().strip()`, skip a blank line, dispatch. */
    method ReadOnce(conn: Conn, username: string, read: Read) returns (leave: bool)
      requires Valid()
      modifies this
      ensures Valid() && clients == old(clients)
      ensures (Model(), leave) == StepOn(old(Model()), conn, username, ReadKindOf(read.data), read.now)
    {
      if read.data == [] {
        return true;
      }
      var message := Strip(read.data);
      if message == [] {
        return false;
      }
      leave := HandleLine(conn, username, message, read.now);
    }

    /** One non-empty stripped line of `_handle_client_messages`; `quit` is set by `-sair`. */
    method HandleLine(conn: Conn, username: string, message: string, now: string) returns (quit: bool)
      requires Valid()
      modifies this
      ensures Valid() && (Model(), quit) == StepOn(old(Model()), conn, username, Line(message), now)
      ensures clients == old(clients)
    {
      StepKeepsInv(Model(), conn, username, Line(message), now);
      quit := false;
      if message == "-sair" {
        quit := true;
      } else if message == "-listarusuarios" {
        SendUserList(conn);
      } else if Contains(message, "grupo") {
        HandleCommandGroup(conn, username, message);
      } else if StartsWith(message, "-msg") {
        HandleCommandMessage(conn, username, message, now);
      } else {
        SendErrorResponse(conn, "Comando desconhecido ou formato inválido.");
      }
    }

    /** `_handle_new_client` for an accepted connection whose first read is `raw`. */
    method HandleNewClient(conn: Conn, raw: string, input: seq<Read>)
      requires Valid()
      modifies this
      ensures Valid() && Model() == Connect(old(Model()), conn, raw, input)
    {
      var username := ReceiveUsername(conn, raw);
      if username == [] {
        return;
      }
      RegisterRefusals(old(Model()), conn, raw);
      CapitalizeNormalForm(raw);
      Admit(conn, username);
      HandleClientMessages(conn, input);
    }

    /**
     * The admission steps of `_handle_new_client` for a name nobody holds:
     * success response, `clients[conn] = username`, then the join notice.
     */
    method Admit(conn: Conn, username: string)
      requires Valid()
      requires username != [] && Capitalize(username) == username && username !in clients.Values
      modifies this
      ensures Valid() && Model() == ServerSpec.Admit(old(Model()), conn, username)
    {
      SendSuccessResponse(conn, "Conexão estabelecida com sucesso!");
      ghost var responded := Model();
      BindKeepsInv(responded, conn, username);
      if conn !in clients {
        joined := joined + [conn];
      }
      clients := clients[conn := username];
      assert Model() == Bind(responded, conn, username);
      Broadcast(username + " entrou no chat.", Some(conn));
    }
  }
}
