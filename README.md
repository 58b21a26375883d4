# Chat server message handling, in Dafny

This project models the message-handling core of a single-process TCP chat
server (`server.py`). The listening socket accepts peers, and every line a peer
sends is broadcast to all connected peers. A line carries its sender's display
handle in a `[...]` tag. The server remembers one handle per peer address and
rewrites the tag of every later line with that stored handle. A peer that
gives no handle gets a guest handle `guestN` from a counter that starts at 1
and only increases.

The model has four modules:

- `PyText` (pytext.dfy): the Python string built-ins the code relies on, with
  Python's semantics.
  - `str.find` returns -1 for a missing character.
  - Slices normalise negative and out-of-range bounds.
  - `str.strip()` removes the characters `str.isspace()` accepts.
  - `str(n)` gives decimal digits, proved to round-trip through `int`.
- `Protocol` (protocol.dfy): the bracket-tag format.
  - The name part of `get_name`, including its corner cases: a missing `[`, a
    missing `]`, and a `]` before the `[`.
  - Guest handles.
  - `fix_msg`, with `str.index` raising `ValueError` as an error result.
- `Broadcaster` (broadcast.dfy): `broadcast` as a pure function of the socket
  list, the listening socket and the set of sockets whose `send` fails.
  - The function follows Python's index-based list iterator.
  - Removing the current socket therefore makes the loop skip the next one.
- `Server` (server.dfy): the server state and the loop body of `chat_server`.
  - `CheckMsgOn` gives the registry update of `check_msg`.
  - `Step` gives one pass of the `for sock in ready_to_read` body.
  - `Run` gives the whole pass over the sockets `select` reported readable.
  - An address-keyed invariant `Inv` is proved preserved by every step.
  - The class `ChatServer` holds the fields the code updates in place:
    `socketList`, `clients`, the guest `counter` and the loop-local `addr`.
    `addr` keeps its value from one socket to the next, as it does in Python.
  - Its methods (`GetName`, `CheckMsg`, `Broadcast`, `HandleReady`, `Iterate`,
    and others) are proved to leave exactly the state the pure functions
    describe.

The model is deterministic. Everything the operating system decides is an
input:

- the sockets `select` reports readable;
- what `accept`, `getpeername` and `recv` return, or whether they raise;
- which sends fail.

An event records these outcomes for one readable socket. `Step` returns
`Crash(e)` when an exception escapes the loop body: a `KeyError` or
`NameError` raised inside the `except` clause itself.

On these points the code behaves in ways that are easy to miss, and the model
does exactly what the code does:

- The registry is never pruned. An empty read or a failed send removes the
  socket from the list, and the address stays in `clients` with its handle.
- The `except` clause removes no socket.
  - It reports whatever `addr` holds.
  - That is the address last bound by an `accept` or a successful
    `getpeername`. When `getpeername` raised, it may come from an earlier
    socket or an earlier `select` pass.
  - It raises `NameError` when `addr` was never bound. It raises `KeyError`
    when the address was never registered.
  - The `NameError` cannot occur in a running server. A peer socket exists
    only after an `accept` has bound `addr`, which `Server.Inv` records as
    `peers != map[] ==> st.addr.Some?`.
- A send failure during `broadcast` also skips the socket after the failing
  one (`Broadcaster.BroadcastSkipsNext`).
- A line missing `[` or `]` makes `fix_msg` raise `ValueError`. The result is
  an "Offline2" notice instead of the line. An unnamed sender's handle is
  stored before `fix_msg` raises.
- A new connection from an address already in the registry resets its handle
  to `""`.

## Model

| member | source | states |
|---|---|---|
| `PyText.Find` | server.py:98-99 | `s.find(c)` is -1 exactly when `c` is absent; otherwise `s[r] == c` and `c` does not occur before `r` |
| `PyText.SliceBound` | server.py:100 | a slice bound inside `0..n` is kept, a negative one counts from the end, and the result is clamped to `0..n` |
| `PyText.Slice` | server.py:100 | `s[start:stop]` is the plain slice for in-range bounds, empty when the start is not below the stop, and always a contiguous piece of `s` at the normalised start |
| `PyText.Strip` | server.py:100 | `strip()` is empty exactly when every character is white space, and never begins or ends with white space |
| `PyText.StripTrimsEnds` | server.py:100 | `strip()` keeps an infix `s[lo..hi]` with only white space before `lo` and after `hi`; with the contract of `Strip` this pins the result down |
| `PyText.StripUnchanged` | server.py:100 | stripping a string with no white space at either end returns it unchanged |
| `PyText.StripIdempotent` | server.py:100 | stripping twice is stripping once |
| `PyText.Decimal` | server.py:104 | `str(n)` is a non-empty string of decimal digits with no leading zero |
| `PyText.DecimalRoundTrip` | server.py:104 | reading the digits of `str(n)` back gives `n` |
| `PyText.DecimalInjective` | server.py:104 | different counter values print differently |
| `Protocol.Index` | server.py:108-109 | `s.index(c)` succeeds exactly when `c` occurs, at its first occurrence, and raises `ValueError` otherwise |
| `Protocol.BracketText` | server.py:98-100 | the stripped slice `get_name` takes contains no `]` and has no white space at either end |
| `Protocol.BracketTextTagged` | server.py:98-100 | when the first `[` precedes the first `]`, the name is the stripped text strictly between them |
| `Protocol.BracketTextNoOpen` | server.py:98-100 | without any `[`, the slice starts at 0 and the name is the stripped text before the first `]` |
| `Protocol.BracketTextNoClose` | server.py:99-100 | without any `]`, the slice stops one before the end of the line, so the last character is never part of the name |
| `Protocol.BracketTextReversed` | server.py:98-101 | a `]` before the first `[` gives an empty slice, so the sender gets a guest handle |
| `Protocol.GuestName` | server.py:104 | a guest handle is `guest` followed by the decimal counter value |
| `Protocol.GuestNameShape` | server.py:104 | a guest handle is non-empty, bracket-free and has no white space at either end |
| `Protocol.GuestNameInjective` | server.py:104 | equal guest handles come from equal counter values |
| `Protocol.NameFor` | server.py:95-104 | `get_name` always returns a non-empty, `]`-free, stripped handle |
| `Protocol.FixMsg` | server.py:106-110 | `fix_msg` succeeds exactly when the line has both a `[` and a `]`, and raises `ValueError` otherwise |
| `Protocol.FixMsgAt` | server.py:106-110 | with the first `[` at `i` and the first `]` at `j`, the result is `msg[..i+1] + name + msg[j..]` |
| `Protocol.FixMsgKeepsOutside` | server.py:106-110 | everything up to and including the first `[` and from the first `]` on is kept, and the handle fills the gap |
| `Protocol.FixMsgTag` | server.py:106-110 | rewriting a tagged line with a `]`-free handle gives a tagged line whose first bracket pair encloses exactly that handle, at the same position |
| `Protocol.FixMsgOverride` | server.py:106-110 | for a line whose first `[` precedes its first `]`, rewriting with a `]`-free `a` and then with `b` is rewriting once with `b` |
| `Protocol.FixMsgNameRoundTrip` | server.py:95-110 | `get_name` of a tagged line (first `[` before first `]`) rewritten with a stripped, `]`-free stored handle reads back that handle |
| `Protocol.FixMsgReversedRepeats` | server.py:108-110 | for every line whose first `]` at `j` precedes its first `[` at `i`, the text `msg[j..i+1]` appears both before the handle and right after it |
| `Protocol.FixMsgReversedExample` | server.py:108-110 | `fix_msg("]x[", "n")` is `"]x[n]x["` |
| `Broadcaster.Discard` | server.py:74-75 | `if s in l: l.remove(s)` takes one copy of `s` out when present and leaves the list alone otherwise |
| `Broadcaster.DiscardAtFirst` | server.py:74-75 | with the first copy of `s` at index `k`, `remove` gives the list without index `k` |
| `Broadcaster.DiscardFirst` | server.py:74-75 | a socket in the list is removed at its first occurrence and nowhere else |
| `Broadcaster.DiscardShift` | server.py:74-75 | removing the socket at index `i` moves every later socket one slot forward |
| `Broadcaster.DiscardKeepsOrder` | server.py:74-75 | `remove` keeps the rest of the list in its order |
| `Broadcaster.BroadcastFrom` | server.py:67-75 | the `for socket in socket_list` loop from iterator position `i`: skip the listening socket, close and remove a socket whose send fails, send to every other; its properties are the `Broadcast...` lemmas below |
| `Broadcaster.Peers` | server.py:66-69 | the sockets a broadcast without failures reaches: exactly the list's sockets other than the listening one, in order |
| `Broadcaster.BroadcastSortsSends` | server.py:67-75 | every dropped socket had a failing send, every reached socket a working one, and the listening socket is never sent to |
| `Broadcaster.BroadcastKeepsOrder` | server.py:67-75 | the list afterwards is an order-preserving subsequence of the list before: nothing is added or reordered |
| `Broadcaster.BroadcastRemovesDropped` | server.py:70-75 | the sockets left, together with the dropped ones, are exactly the sockets before, with multiplicity |
| `Broadcaster.BroadcastKeepsServer` | server.py:67-69 | the listening socket occurs as often afterwards as before |
| `Broadcaster.BroadcastRemovesOnlyFailed` | server.py:70-75 | no socket joins the list, and every socket whose send does not fail occurs as often afterwards as before |
| `Broadcaster.BroadcastKeepsMembers` | server.py:65-75 | a list holding the listening socket still holds it, and every socket left was there before |
| `Broadcaster.BroadcastWithoutFailure` | server.py:65-71 | with no failing send, the list is unchanged and the line reaches every socket other than the listening one, in list order |
| `Broadcaster.NeverTriedAfter` | server.py:67-75 | a socket that does not occur from the iterator position on is neither sent to nor removed by the rest of the loop |
| `Broadcaster.BroadcastSkipsNext` | server.py:67-75 | when the send to the socket at the iterator position fails, the socket right after it (unless it occurs again later) stays in the list but is never sent the line |
| `Broadcaster.BroadcastSkipsNextExample` | server.py:67-75 | on `[server, a, b]` with the send to `a` failing, the list becomes `[server, b]` and nothing is delivered |
| `Server.AddrText` | server.py:54-60 | how `format` prints an address tuple: `('host', port)` |
| `Server.ConnectedLine` | server.py:122 | the `Connected` announcement: address, then handle |
| `Server.Offline1Line` | server.py:56 | the `Offline1` notice: handle, then address |
| `Server.Offline2Line` | server.py:60 | the `Offline2` notice: address, then handle |
| `Server.CheckMsgOn` | server.py:112-123 | `check_msg` as a function of registry, counter, line and address, including the `KeyError` of an unknown address; its properties are the `CheckMsg...` lemmas below |
| `Server.CheckMsgFrame` | server.py:112-123 | `check_msg` raises `KeyError` for an unknown address; otherwise it adds and deletes no address, touches only the sender's handle, leaves it non-empty and never changes a non-empty one, and advances the counter only when it hands out the guest handle for its current value |
| `Server.CheckMsgNamed` | server.py:116-118 | a stored handle leaves registry and counter alone, and the reply is `fix_msg` with that handle |
| `Server.CheckMsgUnnamed` | server.py:119-123 | an unnamed sender gets `get_name(msg)`, which is stored even when `fix_msg` raises; the counter advances exactly when that is a guest handle; the reply is the `Connected` line followed by the rewritten line |
| `Server.CheckAll` | server.py:116-123 | `check_msg` applied to a non-empty run of lines from one address, each on the registry and counter the previous one left |
| `Server.HandleIsSticky` | server.py:116-118 | once named, any number of later lines leave handle and counter as they were, and the last reply uses the stored handle |
| `Server.ReplyShowsStoredHandle` | server.py:116-118 | a tagged line from a named sender is broadcast with the stored handle in its tag, whatever the tag held |
| `Server.FirstLineAnnounces` | server.py:119-123 | the first tagged line from an unnamed address starts with the announcement of its new handle and carries that handle in its tag |
| `Server.GuestNamesNeverRepeat` | server.py:87-93 | guest handles drawn at strictly increasing counter values are pairwise different |
| `Server.Send` | server.py:48 | one `broadcast` call on the server state: the new socket list and the sockets the line reached |
| `Server.Except` | server.py:57-61 | the `except` clause: an `Offline2` notice for the current `addr`, or `NameError`/`KeyError` escaping |
| `Server.Deliver` | server.py:43-48 | a non-empty read: `check_msg`, then the broadcast, or the `except` clause when `check_msg` raises |
| `Server.Disconnect` | server.py:49-56 | an empty read: `sock` leaves the list, then the `Offline1` notice, or `KeyError` escaping |
| `Server.Read` | server.py:42-56 | the three outcomes of `recv`: raising, data, nothing |
| `Server.Step` | server.py:29-61 | one iteration of `for sock in ready_to_read`: accept on the listening socket, else `getpeername` and the read; its properties are the `Step...` lemmas below |
| `Server.ReadableList` | server.py:36-61 | a read leaves the list `broadcast` makes of the list it was given, which is the list without `sock` after an empty read |
| `Server.StepContinues` | server.py:39-61 | with `addr` bound and every address in play registered, no exception escapes the loop body |
| `Server.StepKeepsRegistry` | server.py:28-61 | no step deletes an address; a step changes at most the handle of the address it is about; the counter never goes back; a read adds no address |
| `Server.StepAccepts` | server.py:29-33 | an accept appends exactly the new socket, registers its address with an empty handle, binds `addr`, and leaves other addresses and the counter alone |
| `Server.StepNoLineKeepsRegistry` | server.py:49-61 | an empty read or a raising `getpeername`/`recv` leaves the registry and the counter unchanged |
| `Server.StepReadableRemovals` | server.py:49-61 | after a read, only `sock` and sockets whose send failed have left the list, none has joined, and the listening socket stays |
| `Server.EmptyReadDisconnects` | server.py:49-56 | an empty read with no failing send removes exactly `sock`, keeps the registry, and sends the `Offline1` notice to every remaining peer |
| `Server.MessageEchoesToAll` | server.py:43-48 | with no failing send, a line with both brackets, from a registered address whose socket is still listed, reaches every peer socket, the sender's own included, and the list is unchanged |
| `Server.Run` | server.py:28-61 | the loop over the first `k` readable sockets, one `Step` each, with the broadcast lines logged, stopping at the first escaping exception |
| `Server.RunExtends` | server.py:28-61 | a pass over the first `k` sockets followed by a step on the next is the pass over `k + 1` |
| `Server.RunKeepsRegistry` | server.py:28-61 | over a whole pass no address is deleted and the counter never goes back |
| `Server.Inv` | server.py:16-61 | what holds between sockets: the listening socket stays listed, listed peers come from registered addresses, `addr` is registered once bound, handles are `]`-free and stripped, handed-out counter values increase and stay below the counter |
| `Server.InvSend` | server.py:65-75 | broadcasting keeps the server invariant |
| `Server.InvExcept` | server.py:57-61 | once `addr` is bound, the `except` clause raises nothing and keeps the invariant |
| `Server.InvCheck` | server.py:112-123 | `check_msg` keeps the invariant, with the counter value it hands out recorded |
| `Server.InvDeliver` | server.py:39-48 | a delivered line raises nothing, and keeps the invariant with each handed-out counter value recorded |
| `Server.InvDisconnect` | server.py:49-56 | an empty read from a registered peer raises nothing and keeps the invariant |
| `Server.StepPreservesInv` | server.py:28-61 | with a consistent environment, every loop step raises nothing and keeps the invariant: the listening socket stays listed, listed peers come from registered addresses, `addr` stays bound and registered, stored handles stay `]`-free and stripped, and handed-out counter values increase and stay below the counter |
| `Server.ChatServer.constructor` | server.py:16-20 | the initial state: only the listening socket, an empty registry, the counter at 1 (set at server.py:93) and `addr` unbound; the invariant holds |
| `Server.ChatServer.NextGuestNumber` | server.py:87-93 | `next(sequence)` returns the current counter value and advances the counter by one |
| `Server.ChatServer.GetName` | server.py:95-104 | returns the bracket text and keeps the counter when there is one; otherwise returns the guest handle for the current counter value and advances it |
| `Server.ChatServer.CheckMsg` | server.py:112-123 | leaves the registry, counter and reply that `check_msg` produces, and records any counter value it hands out |
| `Server.ChatServer.Broadcast` | server.py:65-75 | the index-based loop with removal in place leaves the list and delivers to the sockets `BroadcastFrom` describes |
| `Server.ChatServer.OnError` | server.py:57-61 | broadcasts the `Offline2` notice for the bound `addr`, removing nothing else |
| `Server.ChatServer.OnEmptyRead` | server.py:49-56 | removes `sock` if listed and broadcasts the `Offline1` notice, name first |
| `Server.ChatServer.OnData` | server.py:43-48 | runs `check_msg` and broadcasts its reply, or falls into the `except` clause when it raises |
| `Server.ChatServer.ReadFrom` | server.py:36-61 | rebinds `addr` unless `getpeername` raised, then handles the `recv` outcome as one loop step does |
| `Server.ChatServer.HandleReady` | server.py:28-61 | one iteration leaves exactly the state `Step` gives, raises nothing, and keeps the invariant |
| `Server.ChatServer.HandleNext` | server.py:28-61 | handling the next socket extends the pass by one step and keeps the invariant |
| `Server.ChatServer.Iterate` | server.py:28-61 | the loop over all readable sockets leaves the state and the broadcast log of `Run`, and keeps the invariant |

## Left out

- Strip: its own ensures say the result is empty exactly for an all-white-space
  string and has no white space at either end. That it is the infix left after
  removing the white space at both ends is stated by `PyText.StripTrimsEnds`
  instead. As an ensures of `Strip` it would enter every proof that uses a
  handle and make those proofs too expensive.
- Discard: its own ensures give the length and the multiset of the result.
  That the first copy is removed is stated by `Broadcaster.DiscardFirst` and
  `Broadcaster.DiscardAtFirst`.

- `client.py`, the graphical client, is not part of this model. It is I/O and a
  thin wrapper over libraries.
- `get_my_ip` (server.py:77-85), binding, `listen`, and writing and removing the
  discovery file (server.py:10-18, 126-132) are left out. They are socket and
  file-system I/O.
- `select`, `accept`, `getpeername`, `recv`, `send` and `close` are left out.
  Their outcomes are inputs (`Event`, `Recv`, the set of failing sockets).
  - `close` has no effect on the model beyond the removal from the list.
  - An `accept` that raises is not modelled.
- Byte encoding and decoding are left out. Lines are `seq<char>`. A decode error
  has no event of its own; it leads into the `except` clause like a raising
  `recv`.
- Python's `repr` of an address tuple is approximated by `AddrText`. Quotes
  inside the host name would be escaped by Python and are not.
- `print` calls are left out. They are console output only.
- The outer `while True` loop is modelled one `select` pass at a time, by
  `Iterate` and `Run`. The unreachable `server_socket.close()` (server.py:63) is
  left out.
- `Server.ChatServer.Broadcast` builds the new list in a local variable and
  writes it back once at the end. `broadcast` mutates the caller's list in
  place. Nothing else reads the list during the call, so the final state is the
  same. Aliasing is not modelled.
- `Server.ChatServer.Iterate` and `Server.StepPreservesInv` assume the
  environment is consistent (`Fits`, `Handled`):
  - a readable peer socket was accepted earlier;
  - `getpeername` returns the address it was accepted from;
  - `accept` returns a socket not seen before.
  The code cannot check these itself.
