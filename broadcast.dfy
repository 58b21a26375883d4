/** What `broadcast` (server.py:65-75) does to the active socket list. The
    loop is Python's `for socket in socket_list`, whose iterator keeps an
    index into the list while the body removes from that same list; the
    function below follows that index, so removing the current socket makes
    the next one move into the slot the iterator has already passed. */
module Broadcaster {

  /** A socket object, known only by its identity. */
  datatype Socket = Socket(id: nat)

  /** `a` is `b` with some elements taken out, the rest in their order. */
  predicate IsSubsequence(a: seq<Socket>, b: seq<Socket>)
    decreases |b|
  {
    a == [] ||
    (b != [] && ((a[0] == b[0] && IsSubsequence(a[1..], b[1..])) || IsSubsequence(a, b[1..])))
  }

  lemma {:induction false} SubsequenceRefl(a: seq<Socket>)
    ensures IsSubsequence(a, a)
  {
    if a != [] { SubsequenceRefl(a[1..]); }
  }

  lemma {:induction false} SubsequenceTrans(a: seq<Socket>, b: seq<Socket>, c: seq<Socket>)
    requires IsSubsequence(a, b) && IsSubsequence(b, c)
    ensures IsSubsequence(a, c)
    decreases |c|
  {
    if a == [] {
    } else if IsSubsequence(b, c[1..]) {
      SubsequenceTrans(a, b, c[1..]);
    } else {
      assert b[0] == c[0] && IsSubsequence(b[1..], c[1..]);
      if a[0] == b[0] && IsSubsequence(a[1..], b[1..]) {
        SubsequenceTrans(a[1..], b[1..], c[1..]);
      } else {
        SubsequenceTrans(a, b[1..], c[1..]);
      }
    }
  }

  /** `if x in l: l.remove(x)`: drop the first occurrence of `x`, if any. */
  function Discard(l: seq<Socket>, x: Socket): (r: seq<Socket>)
    ensures x in l ==> |r| == |l| - 1
    ensures x !in l ==> r == l
    ensures multiset(r) == multiset(l) - multiset{x}
  {
    if l == [] then []
    else if l[0] == x then
      assert l == [x] + l[1..];
      l[1..]
    else
      assert l == [l[0]] + l[1..];
      [l[0]] + Discard(l[1..], x)
  }

  /** `remove` takes out the first copy: with the first `x` at index `k`,
      the result is the list without index `k`. */
  lemma {:induction false} DiscardAtFirst(l: seq<Socket>, x: Socket, k: nat)
    requires k < |l| && l[k] == x && x !in l[..k]
    ensures Discard(l, x) == l[..k] + l[k + 1..]
  {
    if k > 0 {
      assert l[0] != x by { assert l[0] == l[..k][0]; }
      assert l[1..][..k - 1] == l[1..k];
      DiscardAtFirst(l[1..], x, k - 1);
      assert l[..k] == [l[0]] + l[1..k];
      assert l[k + 1..] == l[1..][k..];
    }
  }

  /** A socket in the list is removed at its first occurrence. */
  lemma DiscardFirst(l: seq<Socket>, x: Socket)
    requires x in l
    ensures exists k :: 0 <= k < |l| && l[k] == x && x !in l[..k] && Discard(l, x) == l[..k] + l[k + 1..]
  {
    var k :| 0 <= k < |l| && l[k] == x;
    while k > 0 && x in l[..k]
      invariant 0 <= k < |l| && l[k] == x
      decreases k
    {
      var j :| 0 <= j < k && l[..k][j] == x;
      k := j;
    }
    assert k == 0 ==> l[..k] == [];
    DiscardAtFirst(l, x, k);
  }

  /** What `remove` leaves keeps the order of the rest. */
  lemma {:induction false} DiscardKeepsOrder(l: seq<Socket>, x: Socket)
    ensures IsSubsequence(Discard(l, x), l)
  {
    if l == [] {
    } else if l[0] == x {
      SubsequenceRefl(l[1..]);
    } else {
      DiscardKeepsOrder(l[1..], x);
      var r := Discard(l, x);
      assert r[1..] == Discard(l[1..], x);
    }
  }

  /** One broadcast: the socket list afterwards, the sockets the message
      reached, in order, and the sockets whose send failed, in order. */
  datatype Fanout = Fanout(sockets: seq<Socket>, delivered: seq<Socket>, dropped: seq<Socket>)

  /** The loop of `broadcast` from iterator position `i` on, over the list
      `l` as it stands then: `server` is skipped, a socket in `fails` is
      closed and discarded, every other socket is sent the message. */
  function BroadcastFrom(l: seq<Socket>, i: nat, server: Socket, fails: set<Socket>): Fanout
    decreases |l| - i
  {
    if i >= |l| then Fanout(l, [], [])
    else
      var s := l[i];
      if s == server then BroadcastFrom(l, i + 1, server, fails)
      else if s in fails then
        var rest := BroadcastFrom(Discard(l, s), i + 1, server, fails);
        Fanout(rest.sockets, rest.delivered, [s] + rest.dropped)
      else
        var rest := BroadcastFrom(l, i + 1, server, fails);
        Fanout(rest.sockets, [s] + rest.delivered, rest.dropped)
  }

  /** Every socket dropped had a failing send, every socket reached had a
      working one, and the listening socket is never sent to. */
  lemma {:induction false} BroadcastSortsSends(l: seq<Socket>, i: nat, server: Socket, fails: set<Socket>)
    ensures var f := BroadcastFrom(l, i, server, fails);
            && (forall s :: s in f.dropped ==> s in fails && s != server)
            && (forall s :: s in f.delivered ==> s !in fails && s != server)
    decreases |l| - i
  {
    if i < |l| {
      var s := l[i];
      if s == server || s !in fails {
        BroadcastSortsSends(l, i + 1, server, fails);
      } else {
        BroadcastSortsSends(Discard(l, s), i + 1, server, fails);
      }
    }
  }

  /** Dropping the socket at index `i` takes one copy of it out. */
  lemma DiscardAt(l: seq<Socket>, i: nat)
    requires i < |l|
    ensures multiset(Discard(l, l[i])) + multiset{l[i]} == multiset(l)
  {
    assert l[i] in l;
  }

  /** The sockets of `l` other than `server`, in order. */
  function Peers(l: seq<Socket>, server: Socket): (r: seq<Socket>)
    ensures forall s :: s in r <==> s in l && s != server
  {
    if l == [] then []
    else if l[0] == server then Peers(l[1..], server)
    else [l[0]] + Peers(l[1..], server)
  }

  /** Broadcast never adds a socket and never reorders: the list afterwards
      is a subsequence of the list before. */
  lemma {:induction false} BroadcastKeepsOrder(l: seq<Socket>, i: nat, server: Socket, fails: set<Socket>)
    ensures IsSubsequence(BroadcastFrom(l, i, server, fails).sockets, l)
    decreases |l| - i
  {
    if i >= |l| {
      SubsequenceRefl(l);
    } else {
      var s := l[i];
      if s == server || s !in fails {
        BroadcastKeepsOrder(l, i + 1, server, fails);
      } else {
        var l' := Discard(l, s);
        BroadcastKeepsOrder(l', i + 1, server, fails);
        DiscardKeepsOrder(l, s);
        SubsequenceTrans(BroadcastFrom(l', i + 1, server, fails).sockets, l', l);
      }
    }
  }

  /** The sockets broadcast takes out of the list are exactly the ones whose
      send failed, counted with multiplicity. */
  lemma {:induction false} BroadcastRemovesDropped(l: seq<Socket>, i: nat, server: Socket, fails: set<Socket>)
    ensures var f := BroadcastFrom(l, i, server, fails);
            multiset(f.sockets) + multiset(f.dropped) == multiset(l)
    decreases |l| - i
  {
    if i >= |l| {
      assert BroadcastFrom(l, i, server, fails) == Fanout(l, [], []);
    } else {
      var s := l[i];
      var f := BroadcastFrom(l, i, server, fails);
      if s == server || s !in fails {
        BroadcastRemovesDropped(l, i + 1, server, fails);
        var rest := BroadcastFrom(l, i + 1, server, fails);
        assert f.sockets == rest.sockets && f.dropped == rest.dropped;
        assert multiset(f.sockets) + multiset(f.dropped) == multiset(l);
      } else {
        var l' := Discard(l, s);
        BroadcastRemovesDropped(l', i + 1, server, fails);
        var rest := BroadcastFrom(l', i + 1, server, fails);
        assert f.sockets == rest.sockets && f.dropped == [s] + rest.dropped;
        DiscardAt(l, i);
        calc {
          multiset(f.sockets) + multiset(f.dropped);
          multiset(rest.sockets) + (multiset{s} + multiset(rest.dropped));
          (multiset(rest.sockets) + multiset(rest.dropped)) + multiset{s};
          multiset(l') + multiset{s};
          multiset(l);
        }
      }
    }
  }

  /** The listening socket is never removed: it occurs as often afterwards
      as before. */
  lemma BroadcastKeepsServer(l: seq<Socket>, i: nat, server: Socket, fails: set<Socket>)
    ensures multiset(BroadcastFrom(l, i, server, fails).sockets)[server] == multiset(l)[server]
  {
    BroadcastRemovesDropped(l, i, server, fails);
    BroadcastSortsSends(l, i, server, fails);
    var f := BroadcastFrom(l, i, server, fails);
    assert server !in f.dropped;
    assert multiset(f.dropped)[server] == 0;
  }

  /** Only sockets whose send failed leave the list, and none joins it:
      every other socket occurs as often afterwards as before. */
  lemma BroadcastRemovesOnlyFailed(l: seq<Socket>, i: nat, server: Socket, fails: set<Socket>)
    ensures var l' := BroadcastFrom(l, i, server, fails).sockets;
            && (forall s :: s in l' ==> s in l)
            && (forall s :: s !in fails ==> multiset(l')[s] == multiset(l)[s])
  {
    BroadcastRemovesDropped(l, i, server, fails);
    BroadcastSortsSends(l, i, server, fails);
    var f := BroadcastFrom(l, i, server, fails);
    forall s | s in f.sockets
      ensures s in l
    {
      assert multiset(f.sockets)[s] > 0;
      assert multiset(l)[s] == multiset(f.sockets)[s] + multiset(f.dropped)[s];
    }
    forall s | s !in fails
      ensures multiset(f.sockets)[s] == multiset(l)[s]
    {
      assert s !in f.dropped;
      assert multiset(f.dropped)[s] == 0;
    }
  }

  /** A list holding the listening socket still holds it afterwards, and
      every socket left was there before. */
  lemma BroadcastKeepsMembers(l: seq<Socket>, server: Socket, fails: set<Socket>)
    requires server in l
    ensures var l' := BroadcastFrom(l, 0, server, fails).sockets;
            server in l' && forall s :: s in l' ==> s in l
  {
    BroadcastKeepsServer(l, 0, server, fails);
    BroadcastRemovesOnlyFailed(l, 0, server, fails);
    var l' := BroadcastFrom(l, 0, server, fails).sockets;
    assert multiset(l')[server] == multiset(l)[server] > 0;
  }

  /** When no send fails, the list is left alone and the message reaches
      every socket from the iterator position on except the listening one,
      the sender's own included. */
  lemma {:induction false} BroadcastWithoutFailure(l: seq<Socket>, i: nat, server: Socket, fails: set<Socket>)
    requires i <= |l|
    requires forall k :: 0 <= k < |l| ==> l[k] !in fails
    ensures BroadcastFrom(l, i, server, fails) == Fanout(l, Peers(l[i..], server), [])
    decreases |l| - i
  {
    if i < |l| {
      BroadcastWithoutFailure(l, i + 1, server, fails);
      assert l[i..][1..] == l[i + 1..];
    }
  }

  /** Removing the socket at index `i` moves every later socket one slot
      forward: the first copy is at or before `i`. */
  lemma DiscardShift(l: seq<Socket>, i: nat)
    requires i < |l|
    ensures var m := Discard(l, l[i]);
            |m| == |l| - 1 && forall j :: i <= j < |m| ==> m[j] == l[j + 1]
  {
    var s := l[i];
    DiscardFirst(l, s);
    var k :| 0 <= k < |l| && l[k] == s && s !in l[..k] && Discard(l, s) == l[..k] + l[k + 1..];
    assert k <= i;
  }

  /** A socket that does not occur from iterator position `i` on is neither
      sent to nor dropped by the rest of the loop. */
  lemma {:induction false} NeverTriedAfter(m: seq<Socket>, i: nat, server: Socket, fails: set<Socket>, x: Socket)
    requires forall k :: i <= k < |m| ==> m[k] != x
    ensures var f := BroadcastFrom(m, i, server, fails);
            x !in f.delivered && x !in f.dropped
    decreases |m| - i
  {
    if i < |m| {
      var s := m[i];
      if s == server || s !in fails {
        NeverTriedAfter(m, i + 1, server, fails, x);
      } else {
        DiscardShift(m, i);
        NeverTriedAfter(Discard(m, s), i + 1, server, fails, x);
      }
    }
  }

  /** The socket right after one whose send fails is never tried: the
      removal moves it into the slot the iterator has passed, so unless it
      occurs again further on, it stays in the list without being sent the
      line. */
  lemma BroadcastSkipsNext(l: seq<Socket>, i: nat, server: Socket, fails: set<Socket>)
    requires i + 1 < |l| && l[i] != server && l[i] in fails
    requires l[i + 1] != l[i]
    requires forall k :: i + 1 < k < |l| ==> l[k] != l[i + 1]
    ensures var f := BroadcastFrom(l, i, server, fails);
            && l[i + 1] !in f.delivered && l[i + 1] !in f.dropped
            && l[i + 1] in f.sockets
  {
    var x, s := l[i + 1], l[i];
    var m := Discard(l, s);
    DiscardShift(l, i);
    NeverTriedAfter(m, i + 1, server, fails, x);
    var f, rest := BroadcastFrom(l, i, server, fails), BroadcastFrom(m, i + 1, server, fails);
    assert f.delivered == rest.delivered && f.dropped == [s] + rest.dropped;
    assert x !in f.dropped;
    BroadcastRemovesDropped(l, i, server, fails);
    assert multiset(l)[x] > 0;
    assert multiset(f.dropped)[x] == 0;
  }

  /** The smallest instance: with the list [server, a, b] and the send to
      a failing, b gets nothing. */
  lemma BroadcastSkipsNextExample()
    ensures var server, a, b := Socket(0), Socket(1), Socket(2);
            BroadcastFrom([server, a, b], 0, server, {a}) == Fanout([server, b], [], [a])
  {
    var server, a, b := Socket(0), Socket(1), Socket(2);
    assert Discard([server, a, b], a) == [server, b];
    assert BroadcastFrom([server, b], 2, server, {a}) == Fanout([server, b], [], []);
  }
}
