/**
 The user/socket bookkeeping that the chat gateway and the calls gateway both keep: which sockets each
 user has open and which user each socket belongs to.
 */
module Sockets {
  import opened Common

  type SocketId = string

  datatype Registry = Registry(userSockets: map<UserId, set<SocketId>>, socketToUser: map<SocketId, UserId>)

  const EMPTY_REGISTRY := Registry(map[], map[])

  /** The sockets of a user; a missing key is the empty set. */
  function SocketsOf(r: Registry, user: UserId): set<SocketId> {
    if user in r.userSockets then r.userSockets[user] else {}
  }

  predicate Online(r: Registry, user: UserId) {
    user in r.userSockets
  }

  /** The registry after a socket authenticated as a user. */
  function Attach(r: Registry, socket: SocketId, user: UserId): Registry {
    Registry(r.userSockets[user := SocketsOf(r, user) + {socket}], r.socketToUser[socket := user])
  }

  /** The registry after a socket closed. */
  function Detach(r: Registry, socket: SocketId): Registry {
    if socket !in r.socketToUser then r
    else
      var user := r.socketToUser[socket];
      var rest := SocketsOf(r, user) - {socket};
      Registry(if user !in r.userSockets then r.userSockets
               else if rest == {} then r.userSockets - {user}
               else r.userSockets[user := rest],
               r.socketToUser - {socket})
  }

  /** The user whose last socket closes when this socket closes. */
  function Departing(r: Registry, socket: SocketId): Option<UserId> {
    if socket !in r.socketToUser then None
    else
      var user := r.socketToUser[socket];
      if user in r.userSockets && r.userSockets[user] - {socket} == {} then Some(user) else None
  }

  /** The two maps are inverse to each other, no user has an empty set and nobody is user 0. */
  ghost predicate Inverse(r: Registry) {
    && (forall s | s in r.socketToUser :: s in SocketsOf(r, r.socketToUser[s]))
    && (forall u, s | u in r.userSockets && s in r.userSockets[u] :: s in r.socketToUser && r.socketToUser[s] == u)
    && (forall u | u in r.userSockets :: u != 0 && r.userSockets[u] != {})
  }

  /** A connecting socket is unknown, or already belongs to the same user. */
  predicate Attachable(r: Registry, socket: SocketId, user: UserId) {
    socket !in r.socketToUser || r.socketToUser[socket] == user
  }

  /** Attaching keeps the maps inverse exactly when the socket does not already belong to somebody else. */
  lemma AttachKeepsInverse(r: Registry, socket: SocketId, user: UserId)
    requires Inverse(r) && user != 0
    ensures Inverse(Attach(r, socket, user)) <==> Attachable(r, socket, user)
  {
    var after := Attach(r, socket, user);
    if !Attachable(r, socket, user) {
      var other := r.socketToUser[socket];
      assert socket in SocketsOf(r, other);
      assert other in after.userSockets && socket in after.userSockets[other];
      assert after.socketToUser[socket] != other;
    } else {
      assert forall s | s in after.socketToUser :: s != socket ==> s in SocketsOf(r, r.socketToUser[s]);
    }
  }

  lemma DetachKeepsInverse(r: Registry, socket: SocketId)
    requires Inverse(r)
    ensures Inverse(Detach(r, socket))
    ensures forall u: UserId :: Online(Detach(r, socket), u) <==> Online(r, u) && Departing(r, socket) != Some(u)
  {
    if socket in r.socketToUser {
      var user := r.socketToUser[socket];
      var after := Detach(r, socket);
      assert socket in r.userSockets[user];
      forall s | s in after.socketToUser ensures s in SocketsOf(after, after.socketToUser[s]) {
        assert s in SocketsOf(r, r.socketToUser[s]);
      }
    }
  }

  lemma AttachOnline(r: Registry, socket: SocketId, user: UserId)
    ensures forall u: UserId :: Online(Attach(r, socket, user), u) <==> Online(r, u) || u == user
  {
  }

  /** Under inversion a connecting user was offline exactly when they had no socket. */
  lemma FirstConnection(r: Registry, user: UserId)
    requires Inverse(r)
    ensures SocketsOf(r, user) == {} <==> !Online(r, user)
  {
  }
}
