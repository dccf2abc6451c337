/** Socket peering and pending connections (kernel/src/net/mod.rs). System calls are taken as atomic. */
module Sockets {
  import opened Common
  import opened Errno

  datatype Socket = Socket(unix: bool, bound: bool, listening: bool, connected: bool, backlog: nat, peer: int,
                           addr: nat, port: nat, peerAddr: nat, peerPort: nat)

  function NewSocket(unix: bool): Socket {
    Socket(unix, false, false, false, 0, -1, 0, 0, 0, 0)
  }

  /** The tables: socket state by owner, clients waiting at a listener, and the owner behind each descriptor. */
  datatype Net = Net(states: map<int, Socket>, pending: map<int, seq<int>>, alias: map<int, int>)

  // What every system call keeps.

  /** A peer is live, points back, and both ends are connected. */
  ghost predicate PeeredAt(states: map<int, Socket>, o: int) {
    o in states && states[o].peer >= 0 ==>
      states[o].connected && states[o].peer != o && states[o].peer in states && states[states[o].peer].peer == o
  }

  ghost predicate Peered(states: map<int, Socket>) {
    forall o: int {:trigger PeeredAt(states, o)} :: PeeredAt(states, o)
  }

  /** A client in a queue is live, connected and not yet peered. */
  ghost predicate Waiting(states: map<int, Socket>, c: int) {
    c >= 0 && c in states && states[c].connected && states[c].peer < 0
  }

  ghost predicate Queued(states: map<int, Socket>, pending: map<int, seq<int>>) {
    && (forall l {:trigger pending[l]} :: l in pending ==> l in states)
    && (forall l, c {:trigger c in pending[l]} :: l in pending && c in pending[l] ==> Waiting(states, c))
  }

  /** A client waits in one place only. */
  ghost predicate OnePlace(pending: map<int, seq<int>>) {
    && (forall l {:trigger pending[l]} :: l in pending ==> Distinct(pending[l]))
    && (forall l, k, c {:trigger c in pending[l], c in pending[k]} ::
         l in pending && k in pending && l != k && c in pending[l] ==> c !in pending[k])
  }

  /** A socket lives as long as a descriptor refers to it. */
  ghost predicate Live(states: map<int, Socket>, alias: map<int, int>) {
    && (forall fd {:trigger alias[fd]} :: fd in alias ==> fd >= 0 && alias[fd] in states)
    && (forall o {:trigger states[o]} :: o in states ==> o >= 0 && exists fd :: fd in alias && alias[fd] == o)
  }

  ghost predicate Inv(n: Net) {
    Peered(n.states) && Queued(n.states, n.pending) && OnePlace(n.pending) && Live(n.states, n.alias)
  }

  ghost predicate IsPending(pending: map<int, seq<int>>, c: int) {
    exists l {:trigger pending[l]} :: l in pending && c in pending[l]
  }

  // A new socket.

  function Entry(pending: map<int, seq<int>>, o: int): map<int, seq<int>> {
    if o in pending then pending else pending[o := []]
  }

  function Alloc(n: Net, fd: int, unix: bool): Net {
    Net(n.states[fd := NewSocket(unix)], Entry(n.pending, fd), n.alias[fd := fd])
  }

  /** A new descriptor keeps the invariant exactly when its number is not a peered or pending owner. */
  lemma AllocKeeps(n: Net, fd: int, unix: bool)
    requires Inv(n) && fd >= 0 && fd !in n.alias
    ensures Inv(Alloc(n, fd, unix)) <==> (fd in n.states ==> n.states[fd].peer < 0 && !IsPending(n.pending, fd))
  {
    var m := Alloc(n, fd, unix);
    if fd in n.states && n.states[fd].peer >= 0 {
      var p := n.states[fd].peer;
      assert PeeredAt(n.states, fd);
      assert !PeeredAt(m.states, p);
    } else if fd in n.states && IsPending(n.pending, fd) {
      var l :| l in n.pending && fd in n.pending[l];
      assert fd in m.pending[l] && !Waiting(m.states, fd);
    } else {
      forall o: int ensures PeeredAt(m.states, o) {
        assert PeeredAt(n.states, o);
      }
      AllocLive(n, fd, unix);
      forall l, c | l in m.pending && c in m.pending[l] ensures Waiting(m.states, c) {
        assert c in n.pending[l];
      }
      assert forall l :: l in m.pending ==> l in m.states;
    }
  }

  lemma AllocLive(n: Net, fd: int, unix: bool)
    requires Live(n.states, n.alias) && fd >= 0 && fd !in n.alias
    ensures Live(Alloc(n, fd, unix).states, Alloc(n, fd, unix).alias)
  {
    var m := Alloc(n, fd, unix);
    forall o | o in m.states ensures o >= 0 && exists f :: f in m.alias && m.alias[f] == o {
      if o == fd {
        assert m.alias[fd] == o;
      } else {
        var f :| f in n.alias && n.alias[f] == o;
        assert m.alias[f] == o;
      }
    }
  }

  // Closing and duplicating descriptors.

  function OwnerOf(n: Net, fd: int): int {
    if fd in n.alias then n.alias[fd] else fd
  }

  function Unpeer(s: Socket, owner: int): Socket {
    if s.peer == owner then s.(peer := -1, connected := false) else s
  }

  function Remove(q: seq<int>, x: int): (r: seq<int>)
    ensures forall c :: c in r <==> c in q && c != x
  {
    if q == [] then [] else if q[0] == x then Remove(q[1..], x) else [q[0]] + Remove(q[1..], x)
  }

  lemma {:induction false} RemoveDistinct(q: seq<int>, x: int)
    requires Distinct(q)
    ensures Distinct(Remove(q, x))
  {
    if q != [] {
      RemoveDistinct(q[1..], x);
      assert forall i :: 0 <= i < |q[1..]| ==> q[1..][i] == q[i + 1];
      assert q[0] !in q[1..];
    }
  }

  predicate HasAlias(alias: map<int, int>, owner: int) {
    exists fd :: fd in alias && alias[fd] == owner
  }

  /** The owner's state goes away and its peer, if any, is cut loose. */
  function Destroy(n: Net, owner: int): Net {
    n.(states := map o | o in n.states && o != owner :: Unpeer(n.states[o], owner),
       pending := map l | l in n.pending && l != owner :: Remove(n.pending[l], owner))
  }

  lemma DestroyKeeps(n: Net, owner: int, fd: int)
    requires Inv(n) && owner >= 0 && owner == OwnerOf(n, fd) && !HasAlias(n.alias - {fd}, owner)
    ensures Inv(Destroy(n, owner).(alias := n.alias - {fd}))
  {
    var m := Destroy(n, owner).(alias := n.alias - {fd});
    forall o: int ensures PeeredAt(m.states, o) {
      assert PeeredAt(n.states, o);
      if o in m.states && m.states[o].peer >= 0 {
        assert PeeredAt(n.states, n.states[o].peer);
      }
    }
    forall l | l in m.pending ensures Distinct(m.pending[l]) {
      RemoveDistinct(n.pending[l], owner);
    }
    forall o | o in m.states ensures o >= 0 && exists f :: f in m.alias && m.alias[f] == o {
      var f :| f in n.alias && n.alias[f] == o;
      assert f in m.alias && m.alias[f] == o;
    }
  }

  lemma DropAliasKeeps(n: Net, fd: int)
    requires Inv(n) && HasAlias(n.alias - {fd}, OwnerOf(n, fd))
    ensures Inv(n.(alias := n.alias - {fd}))
  {
    var m := n.(alias := n.alias - {fd});
    forall o | o in m.states ensures o >= 0 && exists f :: f in m.alias && m.alias[f] == o {
      var f :| f in n.alias && n.alias[f] == o;
      if f != fd {
        assert m.alias[f] == o;
      }
    }
  }

  /** Taking over `newFd` strands no socket. */
  predicate CanTakeOver(alias: map<int, int>, fd: int, newFd: int)
    requires fd in alias
  {
    newFd in alias ==> alias[newFd] == alias[fd] || HasAlias(alias - {newFd}, alias[newFd])
  }

  /** A duplicate keeps the invariant exactly when the number it takes was not the last descriptor of another socket. */
  lemma DupKeeps(n: Net, fd: int, newFd: int)
    requires Inv(n) && fd in n.alias && newFd >= 0
    ensures Inv(n.(alias := n.alias[newFd := n.alias[fd]])) <==> CanTakeOver(n.alias, fd, newFd)
  {
    var m := n.(alias := n.alias[newFd := n.alias[fd]]);
    if CanTakeOver(n.alias, fd, newFd) {
      forall o | o in m.states ensures o >= 0 && exists f :: f in m.alias && m.alias[f] == o {
        DupStaysLive(n, fd, newFd, o);
      }
    } else {
      var o := n.alias[newFd];
      var s := m.states[o];
      forall f | f in m.alias ensures m.alias[f] != o {
        assert f != newFd ==> f in n.alias - {newFd} && (n.alias - {newFd})[f] == m.alias[f];
      }
    }
  }

  lemma DupStaysLive(n: Net, fd: int, newFd: int, o: int)
    requires Inv(n) && fd in n.alias && newFd >= 0 && CanTakeOver(n.alias, fd, newFd) && o in n.states
    ensures var alias := n.alias[newFd := n.alias[fd]]; o >= 0 && exists f :: f in alias && alias[f] == o
  {
    var alias := n.alias[newFd := n.alias[fd]];
    var s := n.states[o];
    var f :| f in n.alias && n.alias[f] == o;
    if f != newFd {
      assert alias[f] == o;
    } else if o == n.alias[fd] {
      assert alias[newFd] == o;
    } else {
      var g :| g in n.alias - {newFd} && (n.alias - {newFd})[g] == o;
      assert alias[g] == o;
    }
  }

  // Connecting.

  /** Changes that leave peers, connection and liveness alone. */
  lemma UpdateKeeps(n: Net, o: int, s: Socket)
    requires Inv(n) && o in n.states && s.peer == n.states[o].peer && s.connected == n.states[o].connected
    ensures Inv(n.(states := n.states[o := s]))
  {
    var m := n.(states := n.states[o := s]);
    forall x: int ensures PeeredAt(m.states, x) {
      assert PeeredAt(n.states, x);
    }
    forall x | x in m.states ensures x >= 0 && exists f :: f in m.alias && m.alias[f] == x {
      assert n.states[x] == n.states[x];
    }
  }

  /** A client that is not connected joins a listener's queue. */
  function Join(n: Net, client: int, l: int, s: Socket): Net
    requires l in Entry(n.pending, l)
  {
    var pending := Entry(n.pending, l);
    n.(states := n.states[client := s.(connected := true)], pending := pending[l := pending[l] + [client]])
  }

  lemma NotConnectedNotPending(n: Net, c: int)
    requires Inv(n) && c in n.states && !n.states[c].connected
    ensures !IsPending(n.pending, c) && n.states[c].peer < 0
  {
    assert PeeredAt(n.states, c);
  }

  lemma JoinKeeps(n: Net, client: int, l: int, s: Socket)
    requires Inv(n) && client in n.states && l in n.states && !n.states[client].connected &&
             s.peer == n.states[client].peer
    ensures Inv(Join(n, client, l, s))
  {
    var m := Join(n, client, l, s);
    NotConnectedNotPending(n, client);
    forall x: int ensures PeeredAt(m.states, x) {
      assert PeeredAt(n.states, x);
      if x in n.states && n.states[x].peer >= 0 {
        assert PeeredAt(n.states, n.states[x].peer);
      }
    }
    var q := Entry(n.pending, l)[l];
    assert client !in q;
    assert Distinct(q + [client]);
    forall x | x in m.states ensures x >= 0 && exists f :: f in m.alias && m.alias[f] == x {
      assert n.states[x] == n.states[x];
    }
  }

  /** The first client of a listener's queue and a new socket become peers. */
  function Pair(n: Net, l: int, fd: int, acc: Socket): Net
    requires l in n.pending && |n.pending[l]| > 0 && n.pending[l][0] in n.states
  {
    var client := n.pending[l][0];
    var c := n.states[client];
    var client' := c.(connected := true, peer := fd, peerAddr := acc.addr, peerPort := acc.port);
    var acc' := acc.(connected := true, peer := client, peerAddr := c.addr, peerPort := c.port);
    n.(states := n.states[client := client'][fd := acc'], pending := n.pending[l := n.pending[l][1..]])
  }

  lemma TailDistinct(q: seq<int>)
    requires Distinct(q) && |q| > 0
    ensures Distinct(q[1..]) && q[0] !in q[1..] && forall c :: c in q[1..] ==> c in q
  {
    assert forall i :: 0 <= i < |q[1..]| ==> q[1..][i] == q[i + 1];
  }

  lemma PairKeeps(n: Net, l: int, fd: int, acc: Socket)
    requires Inv(n) && l in n.pending && |n.pending[l]| > 0 && n.pending[l][0] in n.states
    requires fd in n.states && fd != n.pending[l][0] && n.states[fd].peer < 0 && !IsPending(n.pending, fd)
    ensures Inv(Pair(n, l, fd, acc))
  {
    var m, q, client := Pair(n, l, fd, acc), n.pending[l], n.pending[l][0];
    assert client in q && Waiting(n.states, client);
    forall x: int ensures PeeredAt(m.states, x) {
      assert PeeredAt(n.states, x);
      if x in n.states && n.states[x].peer >= 0 {
        assert PeeredAt(n.states, n.states[x].peer);
      }
    }
    TailDistinct(q);
    forall k, c | k in m.pending && c in m.pending[k] ensures Waiting(m.states, c) {
      assert c in n.pending[k];
    }
    forall x | x in m.states ensures x >= 0 && exists f :: f in m.alias && m.alias[f] == x {
      assert n.states[x] == n.states[x];
    }
  }

  /** Two fresh sockets become peers. */
  function Couple(n: Net, a: int, b: int): Net
    requires a in n.states && b in n.states
  {
    var s, t := n.states[a], n.states[b];
    n.(states := n.states[a := s.(connected := true, bound := true, peer := b)]
                         [b := t.(connected := true, bound := true, peer := a)])
  }

  lemma CoupleKeeps(n: Net, a: int, b: int)
    requires Inv(n) && a in n.states && b in n.states && a != b && n.states[a].peer < 0 && n.states[b].peer < 0
    requires !IsPending(n.pending, a) && !IsPending(n.pending, b)
    ensures Inv(Couple(n, a, b))
  {
    var m := Couple(n, a, b);
    forall x: int ensures PeeredAt(m.states, x) {
      assert PeeredAt(n.states, x);
      if x in n.states && n.states[x].peer >= 0 {
        assert PeeredAt(n.states, n.states[x].peer);
      }
    }
    forall x | x in m.states ensures x >= 0 && exists f :: f in m.alias && m.alias[f] == x {
      assert n.states[x] == n.states[x];
    }
  }

  const EMPTY := Net(map[], map[], map[])

  /** What `socketpair` leaves behind when it gets descriptors 3 and 4. */
  ghost function PairOf34(): Net {
    Couple(Alloc(Alloc(EMPTY, 3, true), 4, true), 3, 4)
  }

  /**
   * `socketpair` gives 3 and 4, `dup(3)` gives 5, `close(3)` leaves the socket alive through 5, and the next `socket`
   * gets the free number 3 again: it overwrites the state of the first end, and 4 has a peer that does not know it.
   */
  lemma ReusedOwnerBreaksPeering()
    ensures var pair := PairOf34();
            var dup := pair.(alias := pair.alias[5 := 3]);
            var closed := dup.(alias := dup.alias - {3});
            && Inv(pair) && Inv(dup) && HasAlias(dup.alias - {3}, 3) && Inv(closed) && 3 !in closed.alias
            && !Inv(Alloc(closed, 3, true))
  {
    var two := Alloc(Alloc(EMPTY, 3, true), 4, true);
    assert Inv(EMPTY);
    AllocKeeps(EMPTY, 3, true);
    AllocKeeps(Alloc(EMPTY, 3, true), 4, true);
    CoupleKeeps(two, 3, 4);
    var pair := PairOf34();
    DupKeeps(pair, 3, 5);
    var dup := pair.(alias := pair.alias[5 := 3]);
    assert dup.alias[5] == 3 && (dup.alias - {3})[5] == 3;
    DropAliasKeeps(dup, 3);
    var closed := dup.(alias := dup.alias - {3});
    assert closed.states[3].peer == 4;
    AllocKeeps(closed, 3, true);
  }

  // The system calls.

  /** Where to bind or connect. */
  datatype Address = Path(path: string) | Inet(addr: nat, port: nat)

  predicate SameAddress(s: Socket, addr: nat, port: nat) {
    s.port == port && (s.addr == addr || s.addr == 0 || addr == 0)
  }

  /** The port a client gets when it connects unbound. */
  function EphemeralPort(owner: int): (p: nat)
    ensures 49152 <= p < 53248
  {
    49152 + owner % 0x1000
  }

  /** `o` listens at the internet address. */
  ghost predicate Listens(states: map<int, Socket>, o: int, addr: nat, port: nat) {
    o in states && states[o].listening && states[o].bound && SameAddress(states[o], addr, port)
  }

  /** `l` is the owner of the path, or the least one listening at the internet address. */
  ghost predicate ResolvesTo(states: map<int, Socket>, pathOwner: map<string, int>, address: Address, l: int) {
    match address
    case Path(path) => path in pathOwner && pathOwner[path] == l
    case Inet(addr, port) =>
      && Listens(states, l, addr, port)
      && forall o {:trigger Listens(states, o, addr, port)} :: Listens(states, o, addr, port) ==> l <= o
  }

  /** No socket takes connections at the address. */
  ghost predicate Refuses(states: map<int, Socket>, pathOwner: map<string, int>, address: Address) {
    match address
    case Path(path) => path in pathOwner ==> pathOwner[path] in states && !states[pathOwner[path]].listening
    case Inet(addr, port) => forall o {:trigger Listens(states, o, addr, port)} :: !Listens(states, o, addr, port)
  }

  predicate Fits(unix: bool, address: Address) {
    if unix then address.Path? else address.Inet?
  }

  /** How many clients may wait. */
  function Capacity(listener: Socket, unix: bool): nat {
    if unix then Max(listener.backlog, 1) else listener.backlog
  }

  predicate AddressInUse(states: map<int, Socket>, owner: int, addr: nat, port: nat) {
    exists o :: o in states && o != owner && states[o].bound && SameAddress(states[o], addr, port)
  }

  class SocketTable {
    var states: map<int, Socket>
    var pending: map<int, seq<int>>
    var alias: map<int, int>
    var pathOwner: map<string, int>
    var ownerPath: map<int, string>

    ghost function Model(): Net
      reads this
    {
      Net(states, pending, alias)
    }

    ghost predicate Valid()
      reads this
    {
      Inv(Model())
    }

    constructor ()
      ensures Valid() && Model() == Net(map[], map[], map[])
    {
      states, pending, alias, pathOwner, ownerPath := map[], map[], map[], map[], map[];
    }

    /** Registers a fresh descriptor, which must not be the owner number of a duplicated socket. */
    method AllocSocketFd(fd: int, unix: bool)
      requires Valid() && fd >= 0 && fd !in alias && fd !in states
      modifies `states, `pending, `alias
      ensures Valid() && Model() == Alloc(old(Model()), fd, unix) && !IsPending(pending, fd) && states[fd].peer < 0
    {
      AllocKeeps(Model(), fd, unix);
      alias := alias[fd := fd];
      states := states[fd := NewSocket(unix)];
      if fd !in pending {
        pending := pending[fd := []];
      }
    }

    /** The last descriptor of a socket destroys it and disconnects its peer; others only go away. */
    method CleanupSocketFd(fd: int)
      requires Valid() && fd >= 0
      modifies this
      ensures Valid() && alias == old(alias) - {fd}
      ensures var o := OwnerOf(old(Model()), fd);
              if HasAlias(alias, o) then states == old(states) && pending == old(pending)
              else
                && Model() == Destroy(old(Model()), o).(alias := alias)
                && (o in old(ownerPath) ==> old(ownerPath)[o] !in pathOwner)
    {
      ghost var n := Model();
      var owner := if fd in alias then alias[fd] else fd;
      alias := alias - {fd};
      if HasAlias(alias, owner) {
        DropAliasKeeps(n, fd);
        return;
      }
      DestroyKeeps(n, owner, fd);
      states := map o | o in states && o != owner :: Unpeer(states[o], owner);
      pending := map l | l in pending && l != owner :: Remove(pending[l], owner);
      if owner in ownerPath {
        pathOwner := pathOwner - {ownerPath[owner]};
        ownerPath := ownerPath - {owner};
      }
    }

    /** `newFd` becomes another descriptor of the socket, whatever it was before. */
    method CloneSocketFd(fd: int, newFd: int)
      requires Valid() && fd in alias && newFd >= 0
      modifies `alias
      ensures alias == old(alias)[newFd := old(alias)[fd]]
      ensures Valid() <==> CanTakeOver(old(alias), fd, newFd)
    {
      DupKeeps(Model(), fd, newFd);
      alias := alias[newFd := alias[fd]];
    }

    /** `dup3`: the number taken is closed first, so that no socket is stranded. */
    method DupOnto(fd: int, newFd: int)
      requires Valid() && fd in alias && newFd >= 0 && newFd != fd
      modifies this
      ensures Valid() && alias == old(alias)[newFd := old(alias)[fd]]
      ensures newFd !in old(alias) || HasAlias(old(alias) - {newFd}, old(alias)[newFd]) ==>
                states == old(states) && pending == old(pending)
      ensures newFd in old(alias) && !HasAlias(old(alias) - {newFd}, old(alias)[newFd]) ==>
                Net(states, pending, alias) == Destroy(old(Model()), old(alias)[newFd]).(alias := alias)
    {
      if newFd in alias {
        CleanupSocketFd(newFd);
      }
      CloneSocketFd(fd, newFd);
    }

    method DoBind(fd: int, address: Address) returns (r: Result<nat, nat>)
      requires Valid()
      modifies this
      ensures Valid() && pending == old(pending) && alias == old(alias)
      ensures r == if fd !in alias then Err(EBADF)
                   else
                     var o := alias[fd];
                     if !Fits(old(states)[o].unix, address) then Err(EAFNOSUPPORT)
                     else if (if address.Path? then address.path in old(pathOwner) && old(pathOwner)[address.path] != o
                              else AddressInUse(old(states), o, address.addr, address.port)) then Err(EADDRINUSE)
                     else Ok(0)
      ensures r.Err? ==> unchanged(this)
      ensures r.Ok? ==>
                var o := alias[fd];
                var s := old(states)[o].(bound := true);
                if address.Path? then
                  && states == old(states)[o := s] && pathOwner == old(pathOwner)[address.path := o]
                  && ownerPath == old(ownerPath)[o := address.path]
                else
                  && states == old(states)[o := s.(port := address.port, addr := address.addr)]
                  && pathOwner == old(pathOwner) && ownerPath == old(ownerPath)
    {
      if fd !in alias {
        return Err(EBADF);
      }
      var owner := alias[fd];
      var s := states[owner];
      if s.unix {
        if !address.Path? {
          return Err(EAFNOSUPPORT);
        }
        if address.path in pathOwner && pathOwner[address.path] != owner {
          return Err(EADDRINUSE);
        }
        pathOwner, ownerPath := pathOwner[address.path := owner], ownerPath[owner := address.path];
        s := s.(bound := true);
      } else {
        if !address.Inet? {
          return Err(EAFNOSUPPORT);
        }
        if AddressInUse(states, owner, address.addr, address.port) {
          return Err(EADDRINUSE);
        }
        s := s.(bound := true, port := address.port, addr := address.addr);
      }
      UpdateKeeps(Model(), owner, s);
      states := states[owner := s];
      return Ok(0);
    }

    method DoListen(fd: int, backlog: int) returns (r: Result<nat, nat>)
      requires Valid()
      modifies `states, `pending
      ensures Valid()
      ensures r == if fd !in alias then Err(EBADF) else if old(states)[alias[fd]].bound then Ok(0) else Err(EINVAL)
      ensures r.Err? ==> unchanged(this)
      ensures r.Ok? ==> var s := old(states)[alias[fd]];
                        states == old(states)[alias[fd] := s.(listening := true, backlog := Max(backlog, 1))]
      ensures r.Ok? ==> pending == Entry(old(pending), alias[fd])
    {
      if fd !in alias {
        return Err(EBADF);
      }
      var owner := alias[fd];
      var s := states[owner];
      if !s.bound {
        return Err(EINVAL);
      }
      s := s.(listening := true, backlog := Max(backlog, 1));
      UpdateKeeps(Model(), owner, s);
      states := states[owner := s];
      EntryKeeps(Model(), owner);
      pending := if owner in pending then pending else pending[owner := []];
      return Ok(0);
    }

    /** Takes the first waiting client and makes a new socket its peer. */
    method DoAccept(fd: int, newFd: int) returns (r: Result<int, nat>)
      requires Valid() && newFd >= 0 && newFd !in alias && newFd !in states
      modifies `states, `pending, `alias
      ensures Valid()
      ensures r == if fd !in old(alias) then Err(EBADF)
                   else
                     var l := old(alias)[fd];
                     if !old(states)[l].listening then Err(EINVAL)
                     else if l !in old(pending) then Err(EBADF)
                     else if old(pending)[l] == [] then Err(EAGAIN)
                     else Ok(newFd)
      ensures r.Err? ==> unchanged(this)
      ensures r.Ok? ==>
                var l := old(alias)[fd];
                var client := old(pending)[l][0];
                && client in old(states) && alias == old(alias)[newFd := newFd]
                && pending == old(pending)[l := old(pending)[l][1..]][newFd := []]
                && var s, c := old(states)[l], old(states)[client];
                   var c' := c.(connected := true, peer := newFd, peerAddr := s.addr, peerPort := s.port);
                   var acc := Socket(s.unix, true, false, true, 0, client, s.addr, s.port, c.addr, c.port);
                   states == old(states)[client := c'][newFd := acc]
    {
      if fd !in alias {
        return Err(EBADF);
      }
      var l := alias[fd];
      var listener := states[l];
      if !listener.listening {
        return Err(EINVAL);
      }
      if l !in pending {
        return Err(EBADF);
      }
      if pending[l] == [] {
        return Err(EAGAIN);
      }
      var client := pending[l][0];
      assert client in pending[l];
      AllocSocketFd(newFd, listener.unix);
      Peer(l, newFd, states[newFd].(bound := true, addr := listener.addr, port := listener.port));
      return Ok(newFd);
    }

    /** The first client waiting at `l` and the accepted socket become peers. */
    method Peer(l: int, fd: int, acc: Socket)
      requires Valid() && l in pending && |pending[l]| > 0 && pending[l][0] in states
      requires fd in states && fd != pending[l][0] && states[fd].peer < 0 && !IsPending(pending, fd)
      modifies `states, `pending
      ensures Valid() && Model() == Pair(old(Model()), l, fd, acc)
    {
      var client := pending[l][0];
      var c := states[client];
      PairKeeps(Model(), l, fd, acc);
      pending := pending[l := pending[l][1..]];
      states := states[client := c.(connected := true, peer := fd, peerAddr := acc.addr, peerPort := acc.port)];
      states := states[fd := acc.(connected := true, peer := client, peerAddr := c.addr, peerPort := c.port)];
    }

    /** The owner with the least number that listens at an internet address. */
    method FindListener(addr: nat, port: nat) returns (r: Option<int>)
      ensures r.Some? ==> Listens(states, r.value, addr, port)
      ensures forall o {:trigger Listens(states, o, addr, port)} :: Listens(states, o, addr, port) ==>
                r.Some? && r.value <= o
    {
      r := None;
      var rest := states.Keys;
      while exists o :: o in rest
        invariant rest <= states.Keys
        invariant r.Some? ==> Listens(states, r.value, addr, port)
        invariant forall o {:trigger Listens(states, o, addr, port)} :: o !in rest && Listens(states, o, addr, port) ==>
                    r.Some? && r.value <= o
        decreases rest
      {
        var o :| o in rest;
        rest := rest - {o};
        var s := states[o];
        if s.listening && s.bound && SameAddress(s, addr, port) && (r.None? || o < r.value) {
          r := Some(o);
        }
      }
    }

    /** Who takes `owner`'s connection at an address of its family. */
    method Resolve(owner: int, address: Address) returns (r: Result<int, nat>)
      ensures r.Ok? ==> r.value != owner && r.value in states && states[r.value].listening
      ensures r.Ok? ==> ResolvesTo(states, pathOwner, address, r.value)
      ensures r == Err(EINVAL) <==> ResolvesTo(states, pathOwner, address, owner)
      ensures r == Err(EBADF) <==> address.Path? && address.path in pathOwner && pathOwner[address.path] != owner &&
                                   pathOwner[address.path] !in states
      ensures r == Err(ECONNREFUSED) <==>
                Refuses(states, pathOwner, address) && !ResolvesTo(states, pathOwner, address, owner)
      ensures r.Err? ==> r.error == EINVAL || r.error == EBADF || r.error == ECONNREFUSED
    {
      if address.Path? {
        if address.path !in pathOwner {
          return Err(ECONNREFUSED);
        }
        var l := pathOwner[address.path];
        if l == owner {
          return Err(EINVAL);
        }
        if l !in states {
          return Err(EBADF);
        }
        if !states[l].listening {
          return Err(ECONNREFUSED);
        }
        return Ok(l);
      }
      var found := FindListener(address.addr, address.port);
      if found.None? {
        return Err(ECONNREFUSED);
      }
      assert Listens(states, found.value, address.addr, address.port);
      if found.value == owner {
        return Err(EINVAL);
      }
      return Ok(found.value);
    }

    /** Queues the socket at a listener; it counts as connected from then on. */
    method DoConnect(fd: int, address: Address) returns (r: Result<nat, nat>, ghost l: int)
      requires Valid()
      modifies `states, `pending
      ensures Valid()
      ensures r.Err? ==>
                states == old(states) && (pending == old(pending) || (l in states && pending == Entry(old(pending), l)))
      ensures fd !in alias ==> r == Err(EBADF)
      ensures fd in alias && old(states)[alias[fd]].connected ==> r == Err(EISCONN)
      ensures fd in alias && !old(states)[alias[fd]].connected ==>
                var o := alias[fd];
                var s := old(states)[o];
                if !Fits(s.unix, address) then r == Err(EAFNOSUPPORT)
                else if ResolvesTo(old(states), pathOwner, address, o) then r == Err(EINVAL)
                else if Refuses(old(states), pathOwner, address) then r == Err(ECONNREFUSED)
                else if l !in old(states) then r == Err(EBADF) && ResolvesTo(old(states), pathOwner, address, l)
                else
                  var q := if l in old(pending) then old(pending)[l] else [];
                  && ResolvesTo(old(states), pathOwner, address, l) && l != o && old(states)[l].listening && o !in q
                  && r == (if |q| >= Capacity(old(states)[l], s.unix) then Err(EAGAIN) else Ok(0))
                  && (r.Ok? ==>
                        pending == old(pending)[l := q + [o]] && states == old(states)[o := Connecting(s, o, address)])
    {
      l := -1;
      if fd !in alias {
        return Err(EBADF), l;
      }
      var owner := alias[fd];
      if states[owner].connected {
        return Err(EISCONN), l;
      }
      if !Fits(states[owner].unix, address) {
        return Err(EAFNOSUPPORT), l;
      }
      var target := Resolve(owner, address);
      if target.Err? {
        l := if target.error == EBADF then pathOwner[address.path] else -1;
        return Err(target.error), l;
      }
      l := target.value;
      var joined := Join(owner, target.value, address);
      return if joined then Ok(0) else Err(EAGAIN), l;
    }

    /** The last client in the listener's queue, if there is room. */
    method Join(owner: int, listener: int, address: Address) returns (joined: bool)
      requires Valid() && owner in states && !states[owner].connected && listener in states && listener != owner
      modifies `states, `pending
      ensures Valid() && owner !in Entry(old(pending), listener)[listener]
      ensures var room := Capacity(old(states)[listener], old(states)[owner].unix);
              joined <==> |Entry(old(pending), listener)[listener]| < room
      ensures !joined ==> states == old(states) && pending == Entry(old(pending), listener)
      ensures joined ==> pending == old(pending)[listener := Entry(old(pending), listener)[listener] + [owner]]
      ensures joined ==> states == old(states)[owner := Connecting(old(states)[owner], owner, address)]
    {
      EntryKeeps(Model(), listener);
      pending := if listener in pending then pending else pending[listener := []];
      NotConnectedNotPending(Model(), owner);
      assert owner !in pending[listener];
      if |pending[listener]| >= Capacity(states[listener], states[owner].unix) {
        return false;
      }
      Enqueue(owner, listener, address);
      return true;
    }

    method Enqueue(owner: int, listener: int, address: Address)
      requires Valid() && owner in states && !states[owner].connected && listener in states && listener in pending
      modifies `states, `pending
      ensures Valid() && pending == old(pending)[listener := old(pending)[listener] + [owner]]
      ensures states == old(states)[owner := Connecting(old(states)[owner], owner, address)]
    {
      var s := Connecting(states[owner], owner, address).(connected := false);
      JoinKeeps(Model(), owner, listener, s);
      pending := pending[listener := pending[listener] + [owner]];
      states := states[owner := s.(connected := true)];
    }

    /** Two new sockets, peers of each other; `sv` is where their numbers are to be stored. */
    method DoSocketpair(unix: bool, sv: nat, fd0: int, fd1: int) returns (r: Result<(int, int), nat>)
      requires Valid() && fd0 >= 0 && fd1 >= 0 && fd0 != fd1
      requires fd0 !in alias && fd1 !in alias && fd0 !in states && fd1 !in states
      modifies `states, `pending, `alias
      ensures Valid() && r == if !unix then Err(EAFNOSUPPORT) else if sv == 0 then Err(EFAULT) else Ok((fd0, fd1))
      ensures r.Err? ==> unchanged(this)
      ensures r.Ok? ==>
                && fd0 in states && fd1 in states && states[fd0].peer == fd1 && states[fd1].peer == fd0
                && states - {fd0, fd1} == old(states) && alias == old(alias)[fd0 := fd0][fd1 := fd1]
                && !IsPending(pending, fd0) && !IsPending(pending, fd1)
    {
      if !unix {
        return Err(EAFNOSUPPORT);
      }
      if sv == 0 {
        return Err(EFAULT);
      }
      AllocSocketFd(fd0, true);
      AllocSocketFd(fd1, true);
      CoupleKeeps(Model(), fd0, fd1);
      states := states[fd0 := states[fd0].(connected := true, bound := true, peer := fd1)];
      states := states[fd1 := states[fd1].(connected := true, bound := true, peer := fd0)];
      return Ok((fd0, fd1));
    }
  }

  /** What connecting changes in the client: an internet socket remembers the address and gets a port if it has none. */
  function Connecting(s: Socket, owner: int, address: Address): Socket {
    match address
    case Path(_) => s.(connected := true)
    case Inet(addr, port) =>
      var s' := s.(connected := true, peerAddr := addr, peerPort := port);
      if s.bound then s' else s'.(bound := true, port := EphemeralPort(owner), addr := 0)
  }

  /**
   * Closing the last descriptor of one end leaves the other end unpeered and disconnected, and all others as they
   * were.
   */
  lemma DestroyedPeer(n: Net, owner: int, o: int)
    requires Inv(n) && owner in n.states && o in n.states && o != owner
    ensures var m := Destroy(n, owner);
            && o in m.states && owner !in m.states && !IsPending(m.pending, owner)
            && (o == n.states[owner].peer ==> m.states[o].peer == -1 && !m.states[o].connected)
            && (o != n.states[owner].peer ==> m.states[o] == n.states[o])
  {
    assert PeeredAt(n.states, o) && PeeredAt(n.states, owner);
  }

  lemma EntryKeeps(n: Net, o: int)
    requires Inv(n) && o in n.states
    ensures Inv(n.(pending := Entry(n.pending, o)))
  {
    forall x: int ensures PeeredAt(n.states, x) {
    }
  }
}
