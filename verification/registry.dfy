/**
  The connection registry of the P2PChat NetworkCom: openSockets maps a peer name to its socket
  and openSocketsToName maps a socket back to the name. Each operation runs under the registry
  lock, so each is one atomic step here.
*/
module SocketRegistry {

  /** What getSocketName answers for a socket it does not know. */
  const Invalid: string := "[INVALID]"

  datatype Registry = Registry(sockets: map<string, int>, names: map<int, string>)

  const Empty: Registry := Registry(map[], map[])

  /** The two maps are inverse to each other. */
  predicate Inverse(r: Registry) {
    (forall n :: n in r.sockets ==> r.sockets[n] in r.names && r.names[r.sockets[n]] == n) &&
    (forall s :: s in r.names ==> r.names[s] in r.sockets && r.sockets[r.names[s]] == s)
  }

  /**
    The registry state the code relies on: the maps are inverse and hold only sockets that
    accept or a successful connect handed out, which are never negative.
  */
  predicate Valid(r: Registry) {
    Inverse(r) && forall s :: s in r.names ==> s >= 0
  }

  /** getClientSocket: the socket of a name, or -1. */
  function GetClientSocket(r: Registry, name: string): (s: int)
    ensures name !in r.sockets ==> s == -1
    ensures Valid(r) ==> (s >= 0 <==> name in r.sockets)
  {
    if name in r.sockets then r.sockets[name] else -1
  }

  /** getSocketName: the name of a socket, or "[INVALID]". */
  function GetSocketName(r: Registry, sock: int): (name: string)
    ensures sock !in r.names ==> name == Invalid
    ensures Inverse(r) && sock in r.names ==> GetClientSocket(r, name) == sock
  {
    if sock in r.names then r.names[sock] else Invalid
  }

  /** addNewSocket as written: both maps are overwritten at the given keys, nothing else. */
  function AddNewSocket(r: Registry, name: string, sock: int): (r': Registry)
    ensures GetClientSocket(r', name) == sock && GetSocketName(r', sock) == name
    ensures forall n :: n != name ==> GetClientSocket(r', n) == GetClientSocket(r, n)
    ensures forall s :: s != sock ==> GetSocketName(r', s) == GetSocketName(r, s)
  {
    Registry(r.sockets[name := sock], r.names[sock := name])
  }

  /**
    removeSocket: the name's socket is looked up (-1 when the name is absent); the name is erased
    from the forward map and that socket from the reverse map.
  */
  function RemoveSocket(r: Registry, name: string): (r': Registry)
    ensures name !in r'.sockets
    ensures forall n :: n != name ==> GetClientSocket(r', n) == GetClientSocket(r, n)
    ensures forall s :: s != GetClientSocket(r, name) ==> GetSocketName(r', s) == GetSocketName(r, s)
    ensures GetSocketName(r', GetClientSocket(r, name)) == Invalid
  {
    var sock := if name in r.sockets then r.sockets[name] else -1;
    Registry(r.sockets - {name}, r.names - {sock})
  }

  /** After addNewSocket(n, s), getClientSocket(n) is s and getSocketName(s) is n. */
  lemma AddThenLookup(r: Registry, name: string, sock: int)
    ensures var r' := AddNewSocket(r, name, sock);
      GetClientSocket(r', name) == sock && GetSocketName(r', sock) == name
  {
  }

  /**
    addNewSocket keeps the maps inverse exactly when neither the name nor the socket is already
    registered with another partner: it never removes the stale entries.
  */
  lemma AddKeepsInverseIff(r: Registry, name: string, sock: int)
    requires Inverse(r)
    ensures Inverse(AddNewSocket(r, name, sock)) <==>
      (name in r.sockets ==> r.sockets[name] == sock) && (sock in r.names ==> r.names[sock] == name)
  {
    var r' := AddNewSocket(r, name, sock);
    if name in r.sockets && r.sockets[name] != sock {
      var prev := r.sockets[name];
      assert prev in r'.names && r'.names[prev] == name && r'.sockets[name] != prev;
    }
    if sock in r.names && r.names[sock] != name {
      var other := r.names[sock];
      assert other in r'.sockets && r'.sockets[other] == sock && r'.names[sock] != other;
    }
  }

  /**
    A peer that authenticates again from a new socket while its old connection is still open
    leaves the old socket mapped to its name, so the two maps are no longer inverse.
  */
  lemma ReconnectLeavesStaleEntry()
    ensures var r := AddNewSocket(AddNewSocket(Empty, "bob", 5), "bob", 7);
      !Inverse(r) && GetSocketName(r, 5) == "bob" && GetClientSocket(r, "bob") == 7
  {
    var r := AddNewSocket(AddNewSocket(Empty, "bob", 5), "bob", 7);
    assert 5 in r.names && r.sockets[r.names[5]] == 7;
  }

  /**
    The consequence: when the old connection ends, its handler resolves its socket to "bob" and
    removes that name, which unregisters the connection that is still open.
  */
  lemma StaleCleanupDropsLiveConnection()
    ensures var r := AddNewSocket(AddNewSocket(Empty, "bob", 5), "bob", 7);
      var r' := RemoveSocket(r, GetSocketName(r, 5));
      GetClientSocket(r', "bob") == -1 && GetSocketName(r', 7) == Invalid
  {
  }

  /**
    addNewSocket as the invariant needs it: the name's previous socket and the socket's previous
    name are unregistered before the new pair is stored.
  */
  function Register(r: Registry, name: string, sock: int): (r': Registry)
    ensures GetClientSocket(r', name) == sock && GetSocketName(r', sock) == name
    ensures Valid(r) && sock >= 0 ==> Valid(r')
  {
    var sockets := if sock in r.names then r.sockets - {r.names[sock]} else r.sockets;
    var names := if name in r.sockets then r.names - {r.sockets[name]} else r.names;
    var r' := Registry(sockets[name := sock], names[sock := name]);
    RegisterKeepsInverse(r, name, sock);
    r'
  }

  lemma RegisterKeepsInverse(r: Registry, name: string, sock: int)
    ensures Inverse(r) ==>
      var sockets := if sock in r.names then r.sockets - {r.names[sock]} else r.sockets;
      var names := if name in r.sockets then r.names - {r.sockets[name]} else r.names;
      Inverse(Registry(sockets[name := sock], names[sock := name]))
  {
    var sockets := if sock in r.names then r.sockets - {r.names[sock]} else r.sockets;
    var names := if name in r.sockets then r.names - {r.sockets[name]} else r.names;
    var r' := Registry(sockets[name := sock], names[sock := name]);
    if !Inverse(r) {
      return;
    }
    forall n | n in r'.sockets
      ensures r'.sockets[n] in r'.names && r'.names[r'.sockets[n]] == n
    {
      if n != name {
        assert n in r.sockets && r.sockets[n] != sock;
        assert name in r.sockets ==> r.sockets[n] != r.sockets[name];
      }
    }
    forall s | s in r'.names
      ensures r'.names[s] in r'.sockets && r'.sockets[r'.names[s]] == s
    {
      if s != sock {
        assert s in r.names && r.names[s] != name;
        assert sock in r.names ==> r.names[s] != r.names[sock];
      }
    }
  }

  /** With the corrected add, a reconnect replaces the old entry and the old cleanup is harmless. */
  lemma ReconnectWithRegister()
    ensures var r := Register(Register(Empty, "bob", 5), "bob", 7);
      var r' := RemoveSocket(r, GetSocketName(r, 5));
      GetSocketName(r, 5) == Invalid && GetClientSocket(r', "bob") == 7 && GetSocketName(r', 7) == "bob"
  {
    var r1 := Register(Empty, "bob", 5);
    assert r1 == Registry(map["bob" := 5], map[5 := "bob"]);
    var r := Register(r1, "bob", 7);
    assert r == Registry(map["bob" := 7], map[7 := "bob"]);
  }

  /** removeSocket keeps a valid registry valid. */
  lemma RemoveKeepsValid(r: Registry, name: string)
    requires Valid(r)
    ensures Valid(RemoveSocket(r, name))
  {
    var r' := RemoveSocket(r, name);
    forall s | s in r'.names
      ensures r'.names[s] in r'.sockets && r'.sockets[r'.names[s]] == s
    {
      assert r.names[s] != name;
    }
  }

  /** Removing a name that is not registered changes nothing in a valid registry. */
  lemma RemoveAbsentIsNoOp(r: Registry, name: string)
    requires Valid(r) && name !in r.sockets
    ensures RemoveSocket(r, name) == r
  {
    assert -1 !in r.names;
    assert r.sockets - {name} == r.sockets;
    assert r.names - {-1} == r.names;
  }
}
