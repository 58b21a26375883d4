/** The chat server's state and its transitions: the registry update of
    `check_msg` (server.py:112-123), the guest counter behind `get_name`
    (server.py:87-104), `broadcast` (server.py:65-75) and one pass of the
    body of `chat_server`'s loop over the sockets `select` reported
    readable (server.py:28-61). Sockets, addresses and the outcome of every
    socket call are inputs. */
module Server {
  import opened PyText
  import opened Protocol
  import opened Broadcaster

  datatype Option<T> = None | Some(value: T)

  /** A peer address, the `(host, port)` pair `accept` and `getpeername`
      return. */
  datatype Addr = Addr(host: string, port: nat)

  /** How `format` prints an address: the `repr` of the tuple. */
  function AddrText(a: Addr): string
  {
    "('" + a.host + "', " + Decimal(a.port) + ")"
  }

  /** `"Connected {} {}\n".format(addr, name)` */
  function ConnectedLine(a: Addr, name: string): string
  {
    "Connected " + AddrText(a) + " " + name + "\n"
  }

  /** `"Offline1 {} {}\n".format(clients[addr], addr)`: name first. */
  function Offline1Line(name: string, a: Addr): string
  {
    "Offline1 " + name + " " + AddrText(a) + "\n"
  }

  /** `"Offline2 {} {}\n".format(addr, clients[addr])`: address first. */
  function Offline2Line(a: Addr, name: string): string
  {
    "Offline2 " + AddrText(a) + " " + name + "\n"
  }

  /** What `check_msg` leaves behind: the registry, the guest counter and
      the line to broadcast, or the exception it raised. */
  datatype Checked = Checked(clients: map<Addr, string>, counter: nat, reply: Result<string>)

  /** `check_msg(msg, addr, clients)` with the guest counter at `counter`.
      A stored handle is used as it is; an empty one (`""`, not yet named)
      is replaced by `get_name(msg)` before the line is rewritten, so the
      registry changes even when `fix_msg` then raises. */
  function CheckMsgOn(clients: map<Addr, string>, counter: nat, msg: string, a: Addr): Checked
  {
    if a !in clients then Checked(clients, counter, Err(KeyError))
    else if clients[a] != "" then Checked(clients, counter, FixMsg(msg, clients[a]))
    else
      var name := NameFor(msg, counter);
      var next := if BracketText(msg) != [] then counter else counter + 1;
      var fixed := FixMsg(msg, name);
      Checked(clients[a := name], next, if fixed.Ok? then Ok(ConnectedLine(a, name) + fixed.value) else fixed)
  }

  /** `check_msg` raises `KeyError` for an unknown address and otherwise
      registers no address and forgets none; it touches at most the handle
      of `a`, which is non-empty afterwards and, once set, stays; the
      counter moves on by one exactly when `a` gets the guest handle for
      the current counter value. */
  lemma CheckMsgFrame(clients: map<Addr, string>, counter: nat, msg: string, a: Addr)
    ensures var c := CheckMsgOn(clients, counter, msg, a);
            && (a !in clients ==> c == Checked(clients, counter, Err(KeyError)))
            && c.clients.Keys == clients.Keys
            && (forall b :: b in clients && b != a ==> c.clients[b] == clients[b])
            && (a in clients ==> c.clients[a] != "" && (clients[a] != "" ==> c.clients[a] == clients[a]))
            && (c.counter == counter || (c.counter == counter + 1 && c.clients[a] == GuestName(counter)))
  {
    if a in clients && clients[a] == "" {
      GuestNameShape(counter);
    }
  }

  /** A stored handle is kept and used: the registry and the counter stay as
      they were and the line is rewritten with that handle. */
  lemma CheckMsgNamed(clients: map<Addr, string>, counter: nat, msg: string, a: Addr)
    requires a in clients && clients[a] != ""
    ensures CheckMsgOn(clients, counter, msg, a) == Checked(clients, counter, FixMsg(msg, clients[a]))
  {
  }

  /** An unnamed address gets `get_name(msg)`, a non-empty handle free of
      `]`; the counter moves on exactly when that is a guest handle; the
      reply is the announcement followed by the rewritten line, or the
      `ValueError` of `fix_msg` with the handle already stored. */
  lemma CheckMsgUnnamed(clients: map<Addr, string>, counter: nat, msg: string, a: Addr)
    requires a in clients && clients[a] == ""
    ensures var c, name := CheckMsgOn(clients, counter, msg, a), NameFor(msg, counter);
            && c.clients == clients[a := name]
            && name != [] && ']' !in name && IsStripped(name)
            && (BracketText(msg) != [] ==> name == BracketText(msg) && c.counter == counter)
            && (BracketText(msg) == [] ==> name == GuestName(counter) && c.counter == counter + 1)
            && c.reply == (var f := FixMsg(msg, name);
                           if f.Ok? then Ok(ConnectedLine(a, name) + f.value) else f)
  {
  }

  /** `check_msg` applied to successive lines from the same address. */
  function CheckAll(clients: map<Addr, string>, counter: nat, msgs: seq<string>, a: Addr): (c: Checked)
    requires msgs != []
    decreases |msgs|
  {
    var first := CheckMsgOn(clients, counter, msgs[0], a);
    if |msgs| == 1 then first
    else CheckAll(first.clients, first.counter, msgs[1..], a)
  }

  /** Once an address has a handle, no later line changes it or the guest
      counter, and the last line is rewritten with that handle. */
  lemma {:induction false} HandleIsSticky(clients: map<Addr, string>, counter: nat, msgs: seq<string>, a: Addr)
    requires a in clients && clients[a] != "" && msgs != []
    ensures var c := CheckAll(clients, counter, msgs, a);
            && c.clients == clients && c.counter == counter
            && c.reply == FixMsg(msgs[|msgs| - 1], clients[a])
    decreases |msgs|
  {
    var first := CheckMsgOn(clients, counter, msgs[0], a);
    assert first.clients == clients;
    if |msgs| > 1 {
      HandleIsSticky(clients, counter, msgs[1..], a);
    }
  }

  /** A tagged line from a named sender is broadcast with the sender's stored
      handle in its tag, whatever the tag held: the handle read back from
      the reply is the stored one. */
  lemma ReplyShowsStoredHandle(clients: map<Addr, string>, counter: nat, msg: string, a: Addr)
    requires a in clients && clients[a] != "" && ']' !in clients[a] && IsStripped(clients[a])
    requires Tagged(msg)
    ensures var c := CheckMsgOn(clients, counter, msg, a);
            c.reply.Ok? && BracketText(c.reply.value) == clients[a]
  {
    FixMsgNameRoundTrip(msg, clients[a]);
  }

  /** The first tagged line from an unnamed address announces the handle it
      was given and carries that handle in its own tag. */
  lemma FirstLineAnnounces(clients: map<Addr, string>, counter: nat, msg: string, a: Addr)
    requires a in clients && clients[a] == "" && Tagged(msg)
    ensures var c := CheckMsgOn(clients, counter, msg, a);
            var name := c.clients[a];
            && name == NameFor(msg, counter)
            && c.reply.Ok?
            && c.reply.value[..|ConnectedLine(a, name)|] == ConnectedLine(a, name)
            && BracketText(c.reply.value[|ConnectedLine(a, name)|..]) == name
  {
    var c := CheckMsgOn(clients, counter, msg, a);
    var name := NameFor(msg, counter);
    GuestNameShape(counter);
    assert c.clients[a] == name;
    FixMsgNameRoundTrip(msg, name);
    var head := ConnectedLine(a, name);
    assert c.reply.value == head + FixMsg(msg, name).value;
    assert c.reply.value[|head|..] == FixMsg(msg, name).value;
  }

  /** Successive counter values, strictly increasing. */
  predicate Increasing(s: seq<nat>)
  {
    forall i, j :: 0 <= i < j < |s| ==> s[i] < s[j]
  }

  /** Guest handles drawn at strictly increasing counter values are all
      different. */
  lemma GuestNamesNeverRepeat(s: seq<nat>)
    requires Increasing(s)
    ensures forall i, j :: 0 <= i < j < |s| ==> GuestName(s[i]) != GuestName(s[j])
  {
    forall i, j | 0 <= i < j < |s|
      ensures GuestName(s[i]) != GuestName(s[j])
    {
      if GuestName(s[i]) == GuestName(s[j]) {
        GuestNameInjective(s[i], s[j]);
      }
    }
  }

  /** What `recv` did: returned these bytes (possibly none) or raised. */
  datatype Recv = Received(data: string) | RecvRaises

  /** What happened when the loop turned to one readable socket: for the
      listening socket, the connection `accept` returned; for a peer
      socket, the result of `getpeername` (`None` when it raised), of
      `recv`, and the sockets whose `send` fails if a line is broadcast. */
  datatype Event =
    | Accepted(client: Socket, addr: Addr)
    | Readable(peer: Option<Addr>, recv: Recv, fails: set<Socket>)

  /** A broadcast line and the sockets it reached. */
  datatype Sent = Sent(line: string, to: seq<Socket>)

  /** The variables of `chat_server` that outlive one socket: `socket_list`,
      `clients`, the state of the `sequence` generator, and the local `addr`,
      which keeps its last value from one socket to the next. */
  datatype ServerState = ServerState(
    socketList: seq<Socket>, clients: map<Addr, string>, counter: nat, addr: Option<Addr>)

  /** The loop carries on with this state having broadcast these lines, or
      an exception escapes it and ends `chat_server`. */
  datatype Outcome = Continue(state: ServerState, log: seq<Sent>) | Crash(error: PyError)

  /** `broadcast(socket_list, server, line)` on the state `st`. */
  function Send(st: ServerState, server: Socket, fails: set<Socket>, line: string): Outcome
  {
    var f := BroadcastFrom(st.socketList, 0, server, fails);
    Continue(st.(socketList := f.sockets), [Sent(line, f.delivered)])
  }

  /** The `except` clause (server.py:57-61): an "Offline2" notice for
      whatever `addr` holds, removing nothing. It raises itself when `addr`
      was never bound or names no registered address. */
  function Except(st: ServerState, server: Socket, fails: set<Socket>): Outcome
  {
    if st.addr.None? then Crash(NameError)
    else if st.addr.value !in st.clients then Crash(KeyError)
    else Send(st, server, fails, Offline2Line(st.addr.value, st.clients[st.addr.value]))
  }

  /** A line arrived from `a` (server.py:43-48): `check_msg`, then the
      rewritten line is broadcast; when `check_msg` raises, the `except`
      clause runs on the registry as `check_msg` left it. */
  function Deliver(st: ServerState, server: Socket, a: Addr, data: string, fails: set<Socket>): Outcome
  {
    var c := CheckMsgOn(st.clients, st.counter, data, a);
    var st' := st.(clients := c.clients, counter := c.counter);
    if c.reply.Ok? then Send(st', server, fails, c.reply.value) else Except(st', server, fails)
  }

  /** `recv` returned nothing (server.py:49-56): `sock` leaves the list, its
      address stays in the registry, and an "Offline1" notice goes out. */
  function Disconnect(st: ServerState, server: Socket, sock: Socket, a: Addr, fails: set<Socket>): Outcome
  {
    var st' := st.(socketList := Discard(st.socketList, sock));
    if a !in st.clients then Crash(KeyError)
    else Send(st', server, fails, Offline1Line(st.clients[a], a))
  }

  /** What `recv` gave, once `getpeername` has bound `addr` to `a`. */
  function Read(st: ServerState, server: Socket, sock: Socket, a: Addr, recv: Recv, fails: set<Socket>): Outcome
  {
    match recv
    case RecvRaises => Except(st, server, fails)
    case Received(data) =>
      if data != [] then Deliver(st, server, a, data, fails)
      else Disconnect(st, server, sock, a, fails)
  }

  /** The loop body for one socket `sock` that `select` reported readable:
      an `accept` on the listening socket (server.py:29-33), otherwise a
      read from a peer (server.py:36-61). */
  function Step(st: ServerState, server: Socket, sock: Socket, ev: Event): (o: Outcome)
    requires sock == server <==> ev.Accepted?
  {
    match ev
    case Accepted(client, a) =>
      Continue(st.(socketList := st.socketList + [client], clients := st.clients[a := ""], addr := Some(a)), [])
    case Readable(peer, recv, fails) =>
      if peer.None? then Except(st, server, fails)
      else Read(st.(addr := peer), server, sock, peer.value, recv, fails)
  }

  /** The socket list a read leaves: what `broadcast` makes of the list the
      read handed it. */
  lemma ReadableList(st: ServerState, server: Socket, sock: Socket, ev: Event)
    requires sock != server && ev.Readable?
    requires Step(st, server, sock, ev).Continue?
    ensures var emptyRead := ev.peer.Some? && ev.recv.Received? && ev.recv.data == [];
            var before := if emptyRead then Discard(st.socketList, sock) else st.socketList;
            Step(st, server, sock, ev).state.socketList == BroadcastFrom(before, 0, server, ev.fails).sockets
  {
    if ev.peer.Some? {
      var st1 := st.(addr := ev.peer);
      match ev.recv
      case RecvRaises =>
      case Received(data) =>
        if data != [] {
          var c := CheckMsgOn(st.clients, st.counter, data, ev.peer.value);
          assert Deliver(st1, server, ev.peer.value, data, ev.fails).Continue?;
        }
    }
  }

  /** What the environment guarantees and the server keeps for a
      connection to be handled without an exception escaping: `addr` is
      bound once a peer socket exists, and every address in play is
      registered. */
  predicate Handled(st: ServerState, server: Socket, sock: Socket, ev: Event)
  {
    && (sock == server <==> ev.Accepted?)
    && (st.addr.Some? ==> st.addr.value in st.clients)
    && (ev.Readable? ==> st.addr.Some? && (ev.peer.Some? ==> ev.peer.value in st.clients))
  }

  /** No exception escapes the loop body under those conditions: the
      `NameError` and `KeyError` the code could raise in its own `except`
      clause never occur. */
  lemma StepContinues(st: ServerState, server: Socket, sock: Socket, ev: Event)
    requires Handled(st, server, sock, ev)
    ensures Step(st, server, sock, ev).Continue?
  {
    if ev.Readable? && ev.peer.Some? && ev.recv.Received? && ev.recv.data != [] {
      var c := CheckMsgOn(st.clients, st.counter, ev.recv.data, ev.peer.value);
      assert ev.peer.value in c.clients;
    }
  }

  /** The registry only grows: no step deletes an address, a step touches
      the handle of at most the address it is about, and the guest counter
      never goes back. */
  lemma StepKeepsRegistry(st: ServerState, server: Socket, sock: Socket, ev: Event)
    requires sock == server <==> ev.Accepted?
    requires Step(st, server, sock, ev).Continue?
    ensures var st' := Step(st, server, sock, ev).state;
            && st.clients.Keys <= st'.clients.Keys
            && st.counter <= st'.counter
            && (ev.Readable? ==> st'.clients.Keys == st.clients.Keys)
            && (forall b :: b in st.clients && st'.clients[b] != st.clients[b] ==>
                  (ev.Accepted? && b == ev.addr) || (ev.Readable? && ev.peer == Some(b)))
  {
  }

  /** An `accept` appends exactly the new socket, registers its address
      with no handle (forgetting any handle the address had), binds `addr`
      to it, and leaves every other address and the counter alone. */
  lemma StepAccepts(st: ServerState, server: Socket, client: Socket, a: Addr)
    ensures var o := Step(st, server, server, Accepted(client, a));
            && o.Continue? && o.log == []
            && o.state.socketList == st.socketList + [client]
            && o.state.clients.Keys == st.clients.Keys + {a} && o.state.clients[a] == ""
            && (forall b :: b in st.clients && b != a ==> o.state.clients[b] == st.clients[b])
            && o.state.counter == st.counter && o.state.addr == Some(a)
  {
  }

  /** A read that delivers no line (an empty read, a failing `recv` or
      `getpeername`) changes neither the registry nor the counter. */
  lemma StepNoLineKeepsRegistry(st: ServerState, server: Socket, sock: Socket, ev: Event)
    requires sock != server && ev.Readable?
    requires !(ev.peer.Some? && ev.recv.Received? && ev.recv.data != [])
    requires Step(st, server, sock, ev).Continue?
    ensures var st' := Step(st, server, sock, ev).state;
            st'.clients == st.clients && st'.counter == st.counter
  {
  }

  /** For a peer socket, only `sock` itself (on an empty read) and sockets
      whose send failed leave the list; nothing joins it, and the listening
      socket stays. */
  lemma StepReadableRemovals(st: ServerState, server: Socket, sock: Socket, ev: Event)
    requires sock != server && ev.Readable?
    requires Step(st, server, sock, ev).Continue?
    ensures var l, l' := st.socketList, Step(st, server, sock, ev).state.socketList;
            && (forall s :: s in l' ==> s in l)
            && (forall s :: s != sock && s !in ev.fails ==> multiset(l')[s] == multiset(l)[s])
            && multiset(l')[server] == multiset(l)[server]
  {
    var l := st.socketList;
    var emptyRead := ev.peer.Some? && ev.recv.Received? && ev.recv.data == [];
    var before := if emptyRead then Discard(l, sock) else l;
    ReadableList(st, server, sock, ev);
    BroadcastRemovesOnlyFailed(before, 0, server, ev.fails);
    BroadcastKeepsServer(before, 0, server, ev.fails);
    assert forall s :: s != sock ==> multiset(before)[s] == multiset(l)[s];
    assert forall s :: s in before ==> s in l by {
      forall s | s in before
        ensures s in l
      {
        assert multiset(before)[s] > 0;
      }
    }
  }

  /** An empty read with no failing send removes exactly `sock`, keeps the
      registry as it was (the address stays registered), and tells every
      remaining peer that the sender went offline. */
  lemma EmptyReadDisconnects(st: ServerState, server: Socket, sock: Socket, a: Addr, fails: set<Socket>)
    requires sock != server && a in st.clients
    requires forall k :: 0 <= k < |st.socketList| ==> st.socketList[k] !in fails
    ensures var rest := Discard(st.socketList, sock);
            Step(st, server, sock, Readable(Some(a), Received([]), fails)) ==
              Continue(ServerState(rest, st.clients, st.counter, Some(a)),
                       [Sent(Offline1Line(st.clients[a], a), Peers(rest, server))])
  {
    var l := st.socketList;
    var rest := Discard(l, sock);
    forall k | 0 <= k < |rest|
      ensures rest[k] !in fails
    {
      assert multiset(rest)[rest[k]] > 0;
      assert rest[k] in l;
    }
    BroadcastWithoutFailure(rest, 0, server, fails);
    assert rest[0..] == rest;
  }

  /** A tagged line from a registered peer is sent to every open peer
      socket, the sender's own included, when no send fails. */
  lemma MessageEchoesToAll(st: ServerState, server: Socket, sock: Socket, a: Addr, data: string, fails: set<Socket>)
    requires sock != server && sock in st.socketList && data != []
    requires forall k :: 0 <= k < |st.socketList| ==> st.socketList[k] !in fails
    requires a in st.clients && '[' in data && ']' in data
    ensures var o := Step(st, server, sock, Readable(Some(a), Received(data), fails));
            && o.Continue? && o.state.socketList == st.socketList
            && o.log == [Sent(CheckMsgOn(st.clients, st.counter, data, a).reply.value, Peers(st.socketList, server))]
            && sock in o.log[0].to
  {
    var c := CheckMsgOn(st.clients, st.counter, data, a);
    assert c.reply.Ok? by {
      if st.clients[a] == "" {
        assert FixMsg(data, NameFor(data, st.counter)).Ok?;
      } else {
        assert c.reply == FixMsg(data, st.clients[a]);
      }
    }
    var st1 := st.(addr := Some(a));
    var st' := st1.(clients := c.clients, counter := c.counter);
    var ev := Readable(Some(a), Received(data), fails);
    assert Step(st, server, sock, ev) == Send(st', server, fails, c.reply.value);
    BroadcastWithoutFailure(st.socketList, 0, server, fails);
    assert st.socketList[0..] == st.socketList;
  }

  /** The `for sock in ready_to_read` loop over the first `k` reported
      sockets: one `Step` per socket, in order, with the lines each step
      broadcast appended to the log, until an exception escapes. */
  function Run(st: ServerState, server: Socket, ready: seq<Socket>, events: seq<Event>, k: nat): Outcome
    requires |ready| == |events| && k <= |ready|
    requires forall j :: 0 <= j < |ready| ==> (ready[j] == server <==> events[j].Accepted?)
  {
    if k == 0 then Continue(st, [])
    else
      match Run(st, server, ready, events, k - 1)
      case Crash(e) => Crash(e)
      case Continue(st1, log) =>
        match Step(st1, server, ready[k - 1], events[k - 1])
        case Crash(e) => Crash(e)
        case Continue(st2, more) => Continue(st2, log + more)
  }

  /** A pass over the first `k` sockets that left `st` and then a step on
      socket `k` that left `st'` make a pass over the first `k + 1`. */
  lemma RunExtends(st0: ServerState, server: Socket, ready: seq<Socket>, events: seq<Event>, k: nat,
                   st: ServerState, log: seq<Sent>, st': ServerState, more: seq<Sent>)
    requires |ready| == |events| && k < |ready|
    requires forall j :: 0 <= j < |ready| ==> (ready[j] == server <==> events[j].Accepted?)
    requires Run(st0, server, ready, events, k) == Continue(st, log)
    requires Step(st, server, ready[k], events[k]) == Continue(st', more)
    ensures Run(st0, server, ready, events, k + 1) == Continue(st', log + more)
  {
  }

  /** Over a pass, registered addresses are never deleted and the guest
      counter never goes back. */
  lemma {:induction false} RunKeepsRegistry(st: ServerState, server: Socket, ready: seq<Socket>, events: seq<Event>, k: nat)
    requires |ready| == |events| && k <= |ready|
    requires forall j :: 0 <= j < |ready| ==> (ready[j] == server <==> events[j].Accepted?)
    requires Run(st, server, ready, events, k).Continue?
    ensures var o := Run(st, server, ready, events, k);
            st.clients.Keys <= o.state.clients.Keys && st.counter <= o.state.counter
    decreases k
  {
    if k > 0 {
      var prev := Run(st, server, ready, events, k - 1);
      assert prev.Continue?;
      RunKeepsRegistry(st, server, ready, events, k - 1);
      var last := Step(prev.state, server, ready[k - 1], events[k - 1]);
      assert last.Continue? && Run(st, server, ready, events, k).state == last.state;
      StepKeepsRegistry(prev.state, server, ready[k - 1], events[k - 1]);
    }
  }

  /** What the loop keeps true between sockets, given `peers`, the address
      each accepted peer socket was accepted from, and `yielded`, every value
      the guest counter has handed out: the listening socket stays in the
      list; every peer socket in the list was accepted, from a registered
      address; `addr` is bound to a registered address once any peer was
      accepted; stored handles are stripped and free of `]`; and the counter
      values handed out increase and stay below the counter. */
  predicate Inv(st: ServerState, server: Socket, peers: map<Socket, Addr>, yielded: seq<nat>)
  {
    && st.counter >= 1
    && server in st.socketList
    && server !in peers
    && (forall s :: s in st.socketList && s != server ==> s in peers)
    && (forall s :: s in peers ==> peers[s] in st.clients)
    && (st.addr.Some? ==> st.addr.value in st.clients)
    && (peers != map[] ==> st.addr.Some?)
    && (forall b :: b in st.clients ==> ']' !in st.clients[b] && IsStripped(st.clients[b]))
    && Increasing(yielded)
    && (forall k :: 0 <= k < |yielded| ==> 1 <= yielded[k] < st.counter)
  }

  /** The accepted peers after an event: an `accept` records the new socket. */
  function NextPeers(peers: map<Socket, Addr>, ev: Event): map<Socket, Addr>
  {
    if ev.Accepted? then peers[ev.client := ev.addr] else peers
  }

  /** The counter values handed out, after the counter went from `counter`
      to `counter'`. */
  function NextYielded(yielded: seq<nat>, counter: nat, counter': nat): seq<nat>
  {
    if counter' == counter then yielded else yielded + [counter]
  }

  lemma InvSend(st: ServerState, server: Socket, fails: set<Socket>, line: string,
                peers: map<Socket, Addr>, yielded: seq<nat>)
    requires Inv(st, server, peers, yielded)
    ensures Inv(Send(st, server, fails, line).state, server, peers, yielded)
  {
    BroadcastKeepsMembers(st.socketList, server, fails);
  }

  /** The `except` clause raises nothing once `addr` is bound. */
  lemma InvExcept(st: ServerState, server: Socket, fails: set<Socket>,
                  peers: map<Socket, Addr>, yielded: seq<nat>)
    requires Inv(st, server, peers, yielded) && st.addr.Some?
    ensures Except(st, server, fails).Continue?
    ensures Inv(Except(st, server, fails).state, server, peers, yielded)
  {
    InvSend(st, server, fails, Offline2Line(st.addr.value, st.clients[st.addr.value]), peers, yielded);
  }

  /** `check_msg` keeps the invariant, with the counter value it hands out,
      if any, recorded. */
  lemma InvCheck(st: ServerState, server: Socket, a: Addr, data: string,
                 peers: map<Socket, Addr>, yielded: seq<nat>)
    requires Inv(st, server, peers, yielded) && st.addr == Some(a)
    ensures var c := CheckMsgOn(st.clients, st.counter, data, a);
            Inv(st.(clients := c.clients, counter := c.counter), server, peers,
                NextYielded(yielded, st.counter, c.counter))
  {
    if st.clients[a] == "" {
      CheckMsgUnnamed(st.clients, st.counter, data, a);
    } else {
      CheckMsgNamed(st.clients, st.counter, data, a);
    }
  }

  lemma InvDeliver(st: ServerState, server: Socket, a: Addr, data: string, fails: set<Socket>,
                   peers: map<Socket, Addr>, yielded: seq<nat>)
    requires Inv(st, server, peers, yielded) && st.addr == Some(a)
    ensures var o := Deliver(st, server, a, data, fails);
            o.Continue? && Inv(o.state, server, peers, NextYielded(yielded, st.counter, o.state.counter))
  {
    var c := CheckMsgOn(st.clients, st.counter, data, a);
    var st' := st.(clients := c.clients, counter := c.counter);
    var y' := NextYielded(yielded, st.counter, c.counter);
    InvCheck(st, server, a, data, peers, yielded);
    if c.reply.Ok? {
      InvSend(st', server, fails, c.reply.value, peers, y');
    } else {
      InvExcept(st', server, fails, peers, y');
    }
  }

  lemma InvDisconnect(st: ServerState, server: Socket, sock: Socket, a: Addr, fails: set<Socket>,
                      peers: map<Socket, Addr>, yielded: seq<nat>)
    requires Inv(st, server, peers, yielded) && sock != server && a in st.clients
    ensures var o := Disconnect(st, server, sock, a, fails);
            o.Continue? && Inv(o.state, server, peers, yielded)
  {
    var l := st.socketList;
    var l' := Discard(l, sock);
    assert multiset(l')[server] == multiset(l)[server] > 0;
    forall s | s in l'
      ensures s in l
    {
      assert multiset(l')[s] > 0;
    }
    var st' := st.(socketList := l');
    assert Inv(st', server, peers, yielded);
    InvSend(st', server, fails, Offline1Line(st.clients[a], a), peers, yielded);
  }

  /** Every loop step keeps the invariant and raises nothing, provided the
      environment is consistent: the listening socket is readable exactly
      when `accept` returns, a new connection is a socket not seen before,
      and `getpeername` on a peer socket, when it returns, returns the
      address that socket was accepted from. */
  lemma {:induction false} StepPreservesInv(st: ServerState, server: Socket, sock: Socket, ev: Event,
                                            peers: map<Socket, Addr>, yielded: seq<nat>)
    requires Inv(st, server, peers, yielded)
    requires sock == server <==> ev.Accepted?
    requires ev.Accepted? ==> ev.client != server && ev.client !in peers
    requires ev.Readable? ==> sock in peers && (ev.peer.Some? ==> ev.peer.value == peers[sock])
    ensures var o := Step(st, server, sock, ev);
            o.Continue? &&
            Inv(o.state, server, NextPeers(peers, ev), NextYielded(yielded, st.counter, o.state.counter))
  {
    match ev
    case Accepted(client, a) =>
      var st' := Step(st, server, sock, ev).state;
      assert "" == [] && IsStripped("");
      assert Inv(st', server, peers[client := a], yielded);
    case Readable(peer, recv, fails) =>
      if peer.None? {
        InvExcept(st, server, fails, peers, yielded);
      } else {
        var st1 := st.(addr := peer);
        assert Inv(st1, server, peers, yielded);
        match recv
        case RecvRaises =>
          InvExcept(st1, server, fails, peers, yielded);
        case Received(data) =>
          if data != [] {
            InvDeliver(st1, server, peer.value, data, fails, peers, yielded);
          } else {
            InvDisconnect(st1, server, sock, peer.value, fails, peers, yielded);
          }
      }
  }

  /** The events still to come, from position `k` on, agree with the peers
      accepted so far: a peer socket reported readable was accepted, and
      `getpeername` returns the address it was accepted from; a new
      connection is a socket neither accepted before nor accepted again
      later in the same pass. */
  ghost predicate Fits(server: Socket, peers: map<Socket, Addr>, ready: seq<Socket>, events: seq<Event>, k: nat)
    requires |ready| == |events|
  {
    && (forall j :: k <= j < |ready| && events[j].Readable? ==>
          ready[j] in peers && (events[j].peer.Some? ==> events[j].peer.value == peers[ready[j]]))
    && (forall j :: k <= j < |ready| && events[j].Accepted? ==>
          events[j].client != server && events[j].client !in peers)
    && (forall i, j :: k <= i < j < |ready| && events[i].Accepted? && events[j].Accepted? ==>
          events[i].client != events[j].client)
  }

  /** Handling the event at `k` leaves the rest fitting the new peers. */
  lemma FitsNext(server: Socket, peers: map<Socket, Addr>, ready: seq<Socket>, events: seq<Event>, k: nat)
    requires |ready| == |events| && k < |ready|
    requires Fits(server, peers, ready, events, k)
    ensures Fits(server, NextPeers(peers, events[k]), ready, events, k + 1)
  {
  }

  /** The server: the state of `chat_server` between sockets, with the
      facts the environment guarantees kept as ghost state: the address
      each accepted socket was accepted from, and every value the guest
      counter has handed out. */
  class ChatServer {
    const server: Socket
    var socketList: seq<Socket>
    var clients: map<Addr, string>
    var counter: nat
    var addr: Option<Addr>
    ghost var peers: map<Socket, Addr>
    ghost var yielded: seq<nat>

    ghost predicate Valid()
      reads this
    {
      Inv(Snapshot(), server, peers, yielded)
    }

    function Snapshot(): ServerState
      reads this
    {
      ServerState(socketList, clients, counter, addr)
    }

    /** The set-up of server.py:16, 20 and 93: only the listening socket,
        no clients, the guest counter at 1, `addr` not yet bound. */
    constructor (server: Socket)
      ensures Valid()
      ensures this.server == server && socketList == [server] && clients == map[]
      ensures counter == 1 && addr == None && peers == map[] && yielded == []
    {
      this.server := server;
      socketList := [server];
      clients := map[];
      counter := 1;
      addr := None;
      peers := map[];
      yielded := [];
    }

    /** `next(sequence)`: the current counter value, and the counter moves
        on by one. */
    method NextGuestNumber() returns (n: nat)
      modifies this`counter, this`yielded
      ensures n == old(counter) && counter == n + 1 && yielded == old(yielded) + [n]
    {
      n := counter;
      counter := counter + 1;
      yielded := yielded + [n];
    }

    /** `get_name(s)`: the stripped bracket text if there is any, otherwise
        a fresh guest handle, which advances the counter. */
    method GetName(s: string) returns (name: string)
      modifies this`counter, this`yielded
      ensures name == NameFor(s, old(counter))
      ensures BracketText(s) != [] ==> counter == old(counter) && yielded == old(yielded)
      ensures BracketText(s) == [] ==>
                name == GuestName(old(counter)) && counter == old(counter) + 1 &&
                yielded == old(yielded) + [old(counter)]
    {
      name := BracketText(s);
      if name == [] {
        var n := NextGuestNumber();
        name := GuestName(n);
      }
    }

    /** `check_msg(msg, a, clients)`. */
    method CheckMsg(msg: string, a: Addr) returns (reply: Result<string>)
      modifies this`clients, this`counter, this`yielded
      ensures var c := CheckMsgOn(old(clients), old(counter), msg, a);
              clients == c.clients && counter == c.counter && reply == c.reply
      ensures yielded == NextYielded(old(yielded), old(counter), counter)
    {
      if a !in clients {
        return Err(KeyError);
      }
      if clients[a] != "" {
        reply := FixMsg(msg, clients[a]);
      } else {
        var name := GetName(msg);
        clients := clients[a := name];
        var fixed := FixMsg(msg, name);
        reply := if fixed.Ok? then Ok(ConnectedLine(a, name) + fixed.value) else fixed;
      }
    }

    /** `broadcast(socket_list, server, message)`: walks the list by index
        as Python's iterator does, closing and discarding each socket whose
        send fails. */
    method Broadcast(message: string, fails: set<Socket>) returns (sent: Sent)
      modifies this`socketList
      ensures var f := BroadcastFrom(old(socketList), 0, server, fails);
              socketList == f.sockets && sent == Sent(message, f.delivered)
    {
      ghost var total := BroadcastFrom(socketList, 0, server, fails);
      var l := socketList;
      var delivered: seq<Socket> := [];
      var i := 0;
      while i < |l|
        invariant i <= |l| + 1
        invariant total.sockets == BroadcastFrom(l, i, server, fails).sockets
        invariant total.delivered == delivered + BroadcastFrom(l, i, server, fails).delivered
        decreases |l| + 1 - i
      {
        var s := l[i];
        ghost var here := BroadcastFrom(l, i, server, fails);
        i := i + 1;
        if s != server {
          if s in fails {
            if s in l {
              l := Discard(l, s);
            }
            assert here.sockets == BroadcastFrom(l, i, server, fails).sockets;
          } else {
            assert here.delivered == [s] + BroadcastFrom(l, i, server, fails).delivered;
            delivered := delivered + [s];
          }
        }
      }
      socketList := l;
      sent := Sent(message, delivered);
    }

    /** The `except` clause (server.py:57-61) with `addr` bound to a
        registered address. */
    method OnError(fails: set<Socket>) returns (log: seq<Sent>)
      requires addr.Some? && addr.value in clients
      modifies this`socketList
      ensures var o := Except(old(Snapshot()), server, fails);
              o.Continue? && Snapshot() == o.state && log == o.log
    {
      var a := addr.value;
      var sent := Broadcast(Offline2Line(a, clients[a]), fails);
      log := [sent];
    }

    /** An empty read from `sock`, whose peer is `a` (server.py:49-56). */
    method OnEmptyRead(sock: Socket, a: Addr, fails: set<Socket>) returns (log: seq<Sent>)
      requires a in clients
      modifies this`socketList
      ensures var o := Disconnect(old(Snapshot()), server, sock, a, fails);
              o.Continue? && Snapshot() == o.state && log == o.log
    {
      if sock in socketList {
        socketList := Discard(socketList, sock);
      }
      var sent := Broadcast(Offline1Line(clients[a], a), fails);
      log := [sent];
    }

    /** A non-empty read from `a` (server.py:43-48, and the `except` clause
        when `check_msg` raises). */
    method OnData(a: Addr, data: string, fails: set<Socket>) returns (log: seq<Sent>)
      requires addr == Some(a) && a in clients
      modifies this`clients, this`counter, this`yielded, this`socketList
      ensures var o := Deliver(old(Snapshot()), server, a, data, fails);
              o.Continue? && Snapshot() == o.state && log == o.log
      ensures yielded == NextYielded(old(yielded), old(counter), counter)
    {
      var reply := CheckMsg(data, a);
      if reply.Ok? {
        var sent := Broadcast(reply.value, fails);
        log := [sent];
      } else {
        log := OnError(fails);
      }
    }

    /** A peer socket is readable (server.py:36-61): `getpeername`, whose
        result `peer` rebinds `addr` unless it raised, then `recv`. */
    method ReadFrom(sock: Socket, peer: Option<Addr>, recv: Recv, fails: set<Socket>) returns (log: seq<Sent>)
      requires sock != server
      requires addr.Some? && addr.value in clients
      requires peer.Some? ==> peer.value in clients
      modifies this`socketList, this`clients, this`counter, this`yielded, this`addr
      ensures var o := Step(old(Snapshot()), server, sock, Readable(peer, recv, fails));
              o.Continue? && Snapshot() == o.state && log == o.log
      ensures yielded == NextYielded(old(yielded), old(counter), counter)
    {
      if peer.None? {
        log := OnError(fails);               // getpeername raised
        return;
      }
      addr := peer;
      match recv
      case RecvRaises =>
        log := OnError(fails);
      case Received(data) =>
        if data != [] {
          log := OnData(peer.value, data, fails);
        } else {
          log := OnEmptyRead(sock, peer.value, fails);
        }
    }

    /** One iteration of `for sock in ready_to_read` (server.py:29-61). */
    method HandleReady(sock: Socket, ev: Event) returns (log: seq<Sent>)
      requires Valid()
      requires sock == server <==> ev.Accepted?
      requires ev.Accepted? ==> ev.client != server && ev.client !in peers
      requires ev.Readable? ==> sock in peers && (ev.peer.Some? ==> ev.peer.value == peers[sock])
      modifies this
      ensures Valid()
      ensures var o := Step(old(Snapshot()), server, sock, ev);
              o.Continue? && Snapshot() == o.state && log == o.log
      ensures peers == NextPeers(old(peers), ev)
      ensures yielded == NextYielded(old(yielded), old(counter), counter)
    {
      StepPreservesInv(Snapshot(), server, sock, ev, peers, yielded);
      if ev.Accepted? {
        socketList := socketList + [ev.client];   // socket_list.append(client)
        clients := clients[ev.addr := ""];        // clients[addr] = ""
        addr := Some(ev.addr);
        peers := peers[ev.client := ev.addr];
        log := [];
      } else {
        log := ReadFrom(sock, ev.peer, ev.recv, ev.fails);
      }
    }

    /** Handles the `k`-th socket of a pass whose first `k` sockets left
        this state and broadcast `log`, and appends what it broadcasts. */
    method HandleNext(ghost start: ServerState, ready: seq<Socket>, events: seq<Event>, k: nat, log: seq<Sent>)
      returns (log': seq<Sent>)
      requires Valid()
      requires |ready| == |events| && k < |ready|
      requires forall j :: 0 <= j < |ready| ==> (ready[j] == server <==> events[j].Accepted?)
      requires Fits(server, peers, ready, events, k)
      requires Run(start, server, ready, events, k) == Continue(Snapshot(), log)
      modifies this
      ensures Valid()
      ensures Fits(server, peers, ready, events, k + 1)
      ensures Run(start, server, ready, events, k + 1) == Continue(Snapshot(), log')
    {
      FitsNext(server, peers, ready, events, k);
      ghost var pre := Snapshot();
      var more := HandleReady(ready[k], events[k]);
      RunExtends(start, server, ready, events, k, pre, log, Snapshot(), more);
      log' := log + more;
    }

    /** The body of `chat_server`'s `while True` loop after `select`: every
        socket in `ready` handled in order, with `events` giving what each
        socket call returned. */
    method Iterate(ready: seq<Socket>, events: seq<Event>) returns (log: seq<Sent>)
      requires Valid()
      requires |ready| == |events|
      requires forall k :: 0 <= k < |ready| ==> (ready[k] == server <==> events[k].Accepted?)
      requires Fits(server, peers, ready, events, 0)
      modifies this
      ensures Valid()
      ensures Run(old(Snapshot()), server, ready, events, |ready|) == Continue(Snapshot(), log)
    {
      ghost var start := Snapshot();
      log := [];
      var k := 0;
      while k < |ready|
        invariant k <= |ready| && Valid()
        invariant Fits(server, peers, ready, events, k)
        invariant Run(start, server, ready, events, k) == Continue(Snapshot(), log)
      {
        log := HandleNext(start, ready, events, k, log);
        k := k + 1;
      }
    }
  }
}
