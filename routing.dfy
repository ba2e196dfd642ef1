/**
 * Who receives what. Connections are opaque ids, every send is a `Delivery`
 * appended to an outbox, and the functions below give the exact sequence of
 * deliveries each routing rule of the server produces, in the order the
 * server's loops produce them. The lemmas state the per-recipient view:
 * what each single connection receives.
 */
module Routing {
  import opened Utils

  /** An accepted connection (a socket in the server). */
  type Conn = nat

  /** One `send` of `text` on connection `to`. */
  datatype Delivery = Delivery(to: Conn, text: string)

  predicate NoDup<T(==)>(xs: seq<T>)
  {
    forall i, j :: 0 <= i < j < |xs| ==> xs[i] != xs[j]
  }

  /** Dropping the last element of a duplicate-free list: the rest stays duplicate-free and lacks that element. */
  lemma NoDupInit<T>(xs: seq<T>)
    requires NoDup(xs) && xs != []
    ensures NoDup(xs[..|xs| - 1])
    ensures xs[|xs| - 1] !in xs[..|xs| - 1]
    ensures forall y :: y in xs <==> y in xs[..|xs| - 1] || y == xs[|xs| - 1]
  {
    var init, last := xs[..|xs| - 1], xs[|xs| - 1];
    assert xs == init + [last];
    forall i | 0 <= i < |init| ensures init[i] != last {
      assert init[i] == xs[i];
    }
  }

  /** The texts an outbox holds for connection `c`, in sending order. */
  function Received(out: seq<Delivery>, c: Conn): seq<string>
  {
    if out == [] then []
    else Received(out[..|out| - 1], c) + (if out[|out| - 1].to == c then [out[|out| - 1].text] else [])
  }

  lemma {:induction false} ReceivedConcat(a: seq<Delivery>, b: seq<Delivery>, c: Conn)
    ensures Received(a + b, c) == Received(a, c) + Received(b, c)
    decreases |b|
  {
    if b != [] {
      var b' := b[..|b| - 1];
      assert (a + b)[..|a + b| - 1] == a + b';
      ReceivedConcat(a, b', c);
    } else {
      assert a + b == a;
    }
  }

  lemma ReceivedSingle(d: Delivery, c: Conn)
    ensures Received([d], c) == if d.to == c then [d.text] else []
  {
    assert [d][..0] == [];
  }

  // ---------------------------------------------------------------------------
  // Broadcast

  /**
   * `for client_socket in targets: if client_socket != sender_socket: send(text)`.
   * `sender == None` stands for the `None` default of `_broadcast`.
   */
  function Fanout(targets: seq<Conn>, sender: Option<Conn>, text: string): seq<Delivery>
  {
    if targets == [] then []
    else
      var last := targets[|targets| - 1];
      Fanout(targets[..|targets| - 1], sender, text) + (if sender == Some(last) then [] else [Delivery(last, text)])
  }

  /**
   * Broadcast reaches every target other than the sender exactly once, with
   * the text unchanged, and nobody else.
   */
  lemma {:induction false} FanoutReach(targets: seq<Conn>, sender: Option<Conn>, text: string, c: Conn)
    requires NoDup(targets)
    ensures Received(Fanout(targets, sender, text), c) == if c in targets && sender != Some(c) then [text] else []
    decreases |targets|
  {
    if targets != [] {
      var init, last := targets[..|targets| - 1], targets[|targets| - 1];
      var tailOut := if sender == Some(last) then [] else [Delivery(last, text)];
      NoDupInit(targets);
      FanoutReach(init, sender, text, c);
      ReceivedConcat(Fanout(init, sender, text), tailOut, c);
      if tailOut != [] { ReceivedSingle(Delivery(last, text), c); }
    }
  }

  // ---------------------------------------------------------------------------
  // Direct delivery

  /** The first connection in `order` registered under `name`, as the `for ... return` loop finds it. */
  function FirstNamed(order: seq<Conn>, names: map<Conn, string>, name: string): Option<Conn>
  {
    if order == [] then None
    else if order[0] in names && names[order[0]] == name then Some(order[0])
    else FirstNamed(order[1..], names, name)
  }

  /**
   * The search finds a connection carrying `name` with none before it in
   * `order`, and finds nothing exactly when no connection in `order` carries it.
   */
  lemma {:induction false} FirstNamedSpec(order: seq<Conn>, names: map<Conn, string>, name: string)
    ensures FirstNamed(order, names, name).Some? ==>
              var c := FirstNamed(order, names, name).value;
              c in order && c in names && names[c] == name
    ensures FirstNamed(order, names, name).None? <==>
              forall i :: 0 <= i < |order| && order[i] in names ==> names[order[i]] != name
    decreases |order|
  {
    if order != [] {
      FirstNamedSpec(order[1..], names, name);
      if FirstNamed(order, names, name).None? {
        forall i | 0 <= i < |order| && order[i] in names ensures names[order[i]] != name {
          if i > 0 { assert order[i] == order[1..][i - 1]; }
        }
      } else {
        assert order == [order[0]] + order[1..];
      }
    }
  }

  /** Where the loop stops: the first index whose connection carries `name`. */
  lemma {:induction false} FirstNamedAt(order: seq<Conn>, names: map<Conn, string>, name: string, i: int)
    requires 0 <= i < |order| && order[i] in names && names[order[i]] == name
    requires forall k :: 0 <= k < i && order[k] in names ==> names[order[k]] != name
    ensures FirstNamed(order, names, name) == Some(order[i])
    decreases i
  {
    if i > 0 {
      FirstNamedAt(order[1..], names, name, i - 1);
    }
  }

  /**
   * With names unique among registered connections and `order` listing exactly
   * the registered ones, the search returns precisely the holder of the name.
   */
  lemma FirstNamedUnique(order: seq<Conn>, names: map<Conn, string>, name: string, c: Conn)
    requires forall x :: x in names <==> x in order
    requires forall x, y :: x in names && y in names && names[x] == names[y] ==> x == y
    ensures FirstNamed(order, names, name) == Some(c) <==> c in names && names[c] == name
  {
    FirstNamedSpec(order, names, name);
    if c in names && names[c] == name {
      var i :| 0 <= i < |order| && order[i] == c;
    }
  }

  // ---------------------------------------------------------------------------
  // Group delivery

  /**
   * The inner loop of a group send for one `member`:
   * `for client_socket, username in clients.items(): if member == username and client_socket != sender`.
   */
  function MemberCopies(member: string, order: seq<Conn>, names: map<Conn, string>, sender: Conn, text: string): seq<Delivery>
  {
    if order == [] then []
    else
      var last := order[|order| - 1];
      MemberCopies(member, order[..|order| - 1], names, sender, text)
      + (if last in names && names[last] == member && last != sender then [Delivery(last, text)] else [])
  }

  /** The outer loop of a group send: `for member in members`. */
  function GroupFanout(members: seq<string>, order: seq<Conn>, names: map<Conn, string>, sender: Conn, text: string): seq<Delivery>
  {
    if members == [] then []
    else
      GroupFanout(members[..|members| - 1], order, names, sender, text)
      + MemberCopies(members[|members| - 1], order, names, sender, text)
  }

  lemma {:induction false} MemberCopiesReach(member: string, order: seq<Conn>, names: map<Conn, string>, sender: Conn, text: string, c: Conn)
    requires NoDup(order)
    ensures Received(MemberCopies(member, order, names, sender, text), c)
            == if c in order && c in names && names[c] == member && c != sender then [text] else []
    decreases |order|
  {
    if order != [] {
      var init, last := order[..|order| - 1], order[|order| - 1];
      var tailOut := if last in names && names[last] == member && last != sender then [Delivery(last, text)] else [];
      NoDupInit(order);
      MemberCopiesReach(member, init, names, sender, text, c);
      ReceivedConcat(MemberCopies(member, init, names, sender, text), tailOut, c);
      if tailOut != [] { ReceivedSingle(Delivery(last, text), c); }
    }
  }

  /**
   * A group send reaches each connected member other than the sender exactly
   * once, and nobody outside the member list; members without a connection
   * receive nothing.
   */
  lemma {:induction false} GroupFanoutReach(members: seq<string>, order: seq<Conn>, names: map<Conn, string>, sender: Conn, text: string, c: Conn)
    requires NoDup(members) && NoDup(order)
    ensures Received(GroupFanout(members, order, names, sender, text), c)
            == if c in order && c in names && names[c] in members && c != sender then [text] else []
    decreases |members|
  {
    if members != [] {
      var init, last := members[..|members| - 1], members[|members| - 1];
      NoDupInit(members);
      GroupFanoutReach(init, order, names, sender, text, c);
      MemberCopiesReach(last, order, names, sender, text, c);
      ReceivedConcat(GroupFanout(init, order, names, sender, text), MemberCopies(last, order, names, sender, text), c);
    }
  }

  // ---------------------------------------------------------------------------
  // Registry helpers

  /** `xs` without its first occurrence of `x` (`list.remove`, or popping a dict key from the key order). */
  function RemoveFirst<T(==)>(xs: seq<T>, x: T): seq<T>
  {
    if xs == [] then []
    else if xs[0] == x then xs[1..]
    else [xs[0]] + RemoveFirst(xs[1..], x)
  }

  /** Removing the first occurrence, at index `i`, keeps every other element in its order. */
  lemma {:induction false} RemoveFirstAt<T>(xs: seq<T>, x: T, i: nat)
    requires i < |xs| && xs[i] == x && forall j :: 0 <= j < i ==> xs[j] != x
    ensures RemoveFirst(xs, x) == xs[..i] + xs[i + 1..]
    decreases i
  {
    if i > 0 {
      assert xs[0] != x;
      RemoveFirstAt(xs[1..], x, i - 1);
      assert [xs[0]] + xs[1..][..i - 1] == xs[..i];
      assert xs[1..][i..] == xs[i + 1..];
    }
  }

  /** Removing from a duplicate-free list drops exactly that element and keeps the rest duplicate-free. */
  lemma {:induction false} RemoveFirstSpec<T>(xs: seq<T>, x: T)
    requires NoDup(xs)
    ensures NoDup(RemoveFirst(xs, x))
    ensures forall y :: y in RemoveFirst(xs, x) <==> y in xs && y != x
    decreases |xs|
  {
    if xs != [] {
      assert NoDup(xs[1..]) by {
        forall i, j | 0 <= i < j < |xs[1..]| ensures xs[1..][i] != xs[1..][j] {
          assert xs[1..][i] == xs[i + 1] && xs[1..][j] == xs[j + 1];
        }
      }
      assert xs[0] !in xs[1..] by {
        forall i | 0 <= i < |xs[1..]| ensures xs[1..][i] != xs[0] {
          assert xs[1..][i] == xs[i + 1];
        }
      }
      assert forall y :: y in xs <==> y == xs[0] || y in xs[1..] by {
        assert xs == [xs[0]] + xs[1..];
      }
      if xs[0] != x {
        RemoveFirstSpec(xs[1..], x);
        var rest := RemoveFirst(xs[1..], x);
        forall i, j | 0 <= i < j < |[xs[0]] + rest| ensures ([xs[0]] + rest)[i] != ([xs[0]] + rest)[j] {
          if i == 0 {
            assert ([xs[0]] + rest)[j] == rest[j - 1];
          } else {
            assert ([xs[0]] + rest)[i] == rest[i - 1] && ([xs[0]] + rest)[j] == rest[j - 1];
          }
        }
      }
    }
  }

  lemma {:induction false} AppendFresh<T>(xs: seq<T>, x: T)
    requires NoDup(xs) && x !in xs
    ensures NoDup(xs + [x])
  {
    forall i, j | 0 <= i < j < |xs + [x]| ensures (xs + [x])[i] != (xs + [x])[j] {
      assert (xs + [x])[i] == xs[i];
      if j < |xs| { assert (xs + [x])[j] == xs[j]; }
    }
  }

  /** `clients.values()` in insertion order. */
  function Names(order: seq<Conn>, names: map<Conn, string>): seq<string>
  {
    if order == [] then []
    else (if order[0] in names then [names[order[0]]] else []) + Names(order[1..], names)
  }

  /**
   * Listing the names along the key order shows each registered name, and only
   * those; with unique names, each appears once.
   */
  lemma {:induction false} NamesSpec(order: seq<Conn>, names: map<Conn, string>)
    requires NoDup(order)
    requires forall x, y :: x in names && y in names && names[x] == names[y] ==> x == y
    ensures forall n :: n in Names(order, names) <==> exists c :: c in order && c in names && names[c] == n
    ensures NoDup(Names(order, names))
    decreases |order|
  {
    if order != [] {
      var head := order[0];
      var rest := order[1..];
      assert NoDup(rest) by {
        forall i, j | 0 <= i < j < |rest| ensures rest[i] != rest[j] {
          assert rest[i] == order[i + 1] && rest[j] == order[j + 1];
        }
      }
      assert head !in rest by {
        forall i | 0 <= i < |rest| ensures rest[i] != head { assert rest[i] == order[i + 1]; }
      }
      assert forall y :: y in order <==> y == head || y in rest by {
        assert order == [head] + rest;
      }
      NamesSpec(rest, names);
      var tail := Names(rest, names);
      if head in names {
        assert names[head] !in tail;
        var all := [names[head]] + tail;
        forall i, j | 0 <= i < j < |all| ensures all[i] != all[j] {
          if i == 0 {
            assert all[j] == tail[j - 1];
          } else {
            assert all[i] == tail[i - 1] && all[j] == tail[j - 1];
          }
        }
      }
    }
  }
}
