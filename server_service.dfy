/**
 * `ServerService` (module/server/server_service.py) performed step by step on
 * the server object it is handed. The service itself keeps no state, so its
 * operations are methods of this module that take the server and change only
 * it; each is proved to end in the state ServiceSpec gives for it.
 */
module Service {
  import opened PyStr
  import opened Utils
  import opened Protocol
  import opened Routing
  import opened ServiceSpec

  /**
   * The part of the server object the service works on: `clients` with the
   * insertion order of its keys, and the sends made through its sockets.
   */
  class Server {
    var clients: map<Conn, string>
    var joined: seq<Conn>
    var outbox: seq<Delivery>

    function Model(): Hub
      reads this
    {
      Hub(clients, joined, outbox)
    }

    ghost predicate Valid()
      reads this
    {
      Inv(Model())
    }

    constructor ()
      ensures Valid() && Model() == Hub(map[], [], [])
    {
      clients := map[];
      joined := [];
      outbox := [];
    }

    /** `client_socket.send(...)` on one of this server's connections. */
    method Send(to: Conn, text: string)
      modifies this
      ensures Model() == ServiceSpec.Send(old(Model()), to, text)
      ensures old(Valid()) ==> Valid()
    {
      outbox := outbox + [Delivery(to, text)];
    }
  }

  /** `_broadcast`: every key of a snapshot of `server.clients` but the sender's. */
  method Broadcast(message: string, server: Server, sender: Option<Conn>)
    requires server.Valid()
    modifies server
    ensures server.Valid() && server.Model() == ServiceSpec.Broadcast(old(server.Model()), message, sender)
  {
    var targets := server.joined;
    var i := 0;
    while i < |targets|
      invariant 0 <= i <= |targets|
      invariant server.clients == old(server.clients) && server.joined == old(server.joined)
      invariant server.outbox == old(server.outbox) + Fanout(targets[..i], sender, message)
    {
      var target := targets[i];
      assert targets[..i + 1][..i] == targets[..i];
      if sender != Some(target) {
        server.Send(target, message);
      }
      i := i + 1;
    }
    assert targets[..i] == targets;
  }

  /** `_send_private_message`: to the first client under the capitalized name, else the notice to the sender. */
  method SendPrivateMessage(recipient: string, message: string, sender: Conn, server: Server)
    requires server.Valid()
    modifies server
    ensures server.Valid() && server.Model() == PrivateMessage(old(server.Model()), recipient, message, sender)
  {
    var found := FindRecipient(recipient, server);
    if found.Some? {
      server.Send(found.value, message);
    } else {
      server.Send(sender, NotFoundNotice(recipient));
    }
  }

  /** The search loop of `_send_private_message` over `server.clients.items()`. */
  method FindRecipient(recipient: string, server: Server) returns (found: Option<Conn>)
    ensures found == FirstNamed(server.joined, server.clients, Capitalize(recipient))
  {
    var i := 0;
    while i < |server.joined|
      invariant 0 <= i <= |server.joined|
      invariant FirstNamed(server.joined, server.clients, Capitalize(recipient))
                == FirstNamed(server.joined[i..], server.clients, Capitalize(recipient))
    {
      var c := server.joined[i];
      if c in server.clients && server.clients[c] == Capitalize(recipient) {
        return Some(c);
      }
      assert server.joined[i..][1..] == server.joined[i + 1..];
      i := i + 1;
    }
    return None;
  }

  /** `_remove_client`. */
  method RemoveClient(conn: Conn, server: Server)
    requires server.Valid()
    modifies server
    ensures server.Valid() && server.Model() == ServiceSpec.RemoveClient(old(server.Model()), conn)
  {
    var name := if conn in server.clients then server.clients[conn] else ServerSpec.Unknown;
    ServerSpec.RegistryRemove(server.clients, server.joined, conn);
    server.clients := server.clients - {conn};
    server.joined := RemoveFirst(server.joined, conn);
    Broadcast(name + " saiu do chat.", server, None);
  }

  /** `handle_new_client` for an accepted connection whose first read is `raw`. */
  method HandleNewClient(conn: Conn, raw: string, input: seq<string>, server: Server)
    requires server.Valid()
    modifies server
    ensures server.Valid() && server.Model() == Connect(old(server.Model()), conn, raw, input)
  {
    var name := Capitalize(raw);
    if name == [] {
      return;
    }
    if name in server.clients.Values {
      server.Send(conn, BareResponse(Error, Taken));
      return;
    }
    CapitalizeNormalForm(raw);
    Admit(conn, name, server);
    HandleClientMessages(conn, input, server);
  }

  /** The admission steps of `handle_new_client`: success frame, `server.clients[client_socket] = name`, join notice. */
  method Admit(conn: Conn, name: string, server: Server)
    requires server.Valid()
    requires name != [] && Capitalize(name) == name && name !in server.clients.Values
    modifies server
    ensures server.Valid() && server.Model() == ServiceSpec.Admit(old(server.Model()), conn, name)
  {
    server.Send(conn, BareResponse(Ok, Welcome));
    ghost var greeted := server.Model();
    ServerSpec.RegistryBind(server.clients, server.joined, conn, name);
    if conn !in server.clients {
      server.joined := server.joined + [conn];
    }
    server.clients := server.clients[conn := name];
    assert server.Model() == Bind(greeted, conn, name);
    Broadcast(name + " entrou no chat.", server, Some(conn));
  }

  /** `_handle_client_messages` over a finite run of reads, then `_remove_client` in the `finally`. */
  method HandleClientMessages(conn: Conn, input: seq<string>, server: Server)
    requires server.Valid()
    modifies server
    ensures server.Valid() && server.Model() == Session(old(server.Model()), conn, input)
  {
    var name := if conn in server.clients then server.clients[conn] else ServerSpec.Unknown;
    ReadLoop(conn, name, input, server);
    RemoveClient(conn, server);
  }

  /** The `while True` loop of `_handle_client_messages`. */
  method ReadLoop(conn: Conn, name: string, input: seq<string>, server: Server)
    requires server.Valid()
    modifies server
    ensures server.Valid() && server.Model() == Serve(old(server.Model()), conn, name, input, LineActionOf)
  {
    var i := 0;
    while i < |input|
      invariant 0 <= i <= |input|
      invariant server.Valid()
      invariant Serve(old(server.Model()), conn, name, input, LineActionOf)
                == Serve(server.Model(), conn, name, input[i..], LineActionOf)
    {
      ghost var before := server.Model();
      assert input[i..][0] == input[i] && input[i..][1..] == input[i + 1..];
      var leave := ReadOnce(conn, name, input[i], server);
      ServeStep(before, conn, name, input[i..], LineActionOf, server.Model(), leave);
      if leave {
        break;
      }
      i := i + 1;
    }
  }

  /**
   * One turn of the loop: `recv().strip()`; an empty message ends the loop;
   * `@who text` is sent privately as `name: text`; anything else is broadcast
   * as `name: message`. The private branch is the corrected one: it passes the
   * server along, and a bare `@who` sends empty text instead of raising (see
   * LineActionAsWritten).
   */
  method ReadOnce(conn: Conn, name: string, data: string, server: Server) returns (leave: bool)
    requires server.Valid()
    modifies server
    ensures server.Valid() && (server.Model(), leave) == StepOn(old(server.Model()), conn, LineActionOf(name, data))
  {
    var message := Strip(data);
    if message == [] {
      return true;
    }
    if StartsWith(message, "@") {
      var parts := Split(message, 1);
      var msg := if |parts| == 2 then parts[1] else [];
      SendPrivateMessage(parts[0][1..], name + ": " + msg, conn, server);
      return false;
    }
    Broadcast(name + ": " + message, server, Some(conn));
    return false;
  }
}
