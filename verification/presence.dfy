/** The server's `onlineUsers` map from a user id to the id of the socket
    that last identified as that user. A JavaScript `Map` iterates in
    insertion order and `set` on an existing key keeps the key's position,
    so the map is an ordered sequence of bindings with distinct users. */
module Presence {
  import opened Common

  type SocketId = string

  datatype Binding = Binding(user: UserId, socket: SocketId)

  /** The `Map` invariant: a user appears at most once. */
  predicate KeysDistinct(e: seq<Binding>) {
    forall i, j :: 0 <= i < j < |e| ==> e[i].user != e[j].user
  }

  /** Position of the binding for user `u`. */
  function KeyIndex(e: seq<Binding>, u: UserId): (r: Option<nat>)
    ensures r.None? <==> forall j :: 0 <= j < |e| ==> e[j].user != u
    ensures r.Some? ==> r.value < |e| && e[r.value].user == u
    ensures r.Some? ==> forall j :: 0 <= j < r.value ==> e[j].user != u
  {
    if e == [] then None
    else if e[0].user == u then Some(0)
    else
      match KeyIndex(e[1..], u)
      case None => None
      case Some(i) => Some(i + 1)
  }

  /** `onlineUsers.get(u)`. */
  function Get(e: seq<Binding>, u: UserId): (r: Option<SocketId>)
    ensures r.None? <==> forall j :: 0 <= j < |e| ==> e[j].user != u
    ensures r.Some? ==> Binding(u, r.value) in e
  {
    match KeyIndex(e, u)
    case None => None
    case Some(i) =>
      assert e[i] == Binding(u, e[i].socket);
      Some(e[i].socket)
  }

  /** With distinct keys, `get` answers the socket of the user's binding. */
  lemma GetAt(e: seq<Binding>, u: UserId, j: nat)
    requires KeysDistinct(e)
    requires j < |e| && e[j].user == u
    ensures Get(e, u) == Some(e[j].socket)
  {
    var i := KeyIndex(e, u).value;
    assert e[i].user == e[j].user;
  }

  /** `[...onlineUsers.entries()].find(([id, sid]) => sid === h)`: the
      position of the first binding, in map order, whose socket is `h`. */
  function SocketIndex(e: seq<Binding>, h: SocketId): (r: Option<nat>)
    ensures r.None? <==> forall j :: 0 <= j < |e| ==> e[j].socket != h
    ensures r.Some? ==> r.value < |e| && e[r.value].socket == h
    ensures r.Some? ==> forall j :: 0 <= j < r.value ==> e[j].socket != h
  {
    if e == [] then None
    else if e[0].socket == h then Some(0)
    else
      match SocketIndex(e[1..], h)
      case None => None
      case Some(i) => Some(i + 1)
  }

  /** The reverse lookup `…find(…)?.[0]`: the user of that first binding. */
  function UserOf(e: seq<Binding>, h: SocketId): (r: Option<UserId>)
    ensures r.None? <==> forall j :: 0 <= j < |e| ==> e[j].socket != h
    ensures r.Some? ==> Binding(r.value, h) in e
    ensures r.Some? ==>
      exists i :: 0 <= i < |e| && e[i] == Binding(r.value, h) && (forall j :: 0 <= j < i ==> e[j].socket != h)
  {
    match SocketIndex(e, h)
    case None => None
    case Some(i) =>
      assert e[i] == Binding(e[i].user, h);
      Some(e[i].user)
  }

  /** `onlineUsers.get(reverse lookup of h)`: the socket that the handlers
      use as "the sender's socket". */
  function SenderSocket(e: seq<Binding>, h: SocketId): (r: Option<SocketId>)
    ensures r.Some? <==> UserOf(e, h).Some?
    ensures r.Some? ==> Binding(UserOf(e, h).value, r.value) in e
  {
    match UserOf(e, h)
    case None => None
    case Some(u) => Get(e, u)
  }

  /** `onlineUsers.set(u, h)`: last identify wins; an existing key keeps its
      place, a new key goes to the end. */
  function Set(e: seq<Binding>, u: UserId, h: SocketId): (r: seq<Binding>)
    ensures KeysDistinct(e) ==> KeysDistinct(r)
    ensures Get(r, u) == Some(h)
    ensures |r| == if Get(e, u).Some? then |e| else |e| + 1
    ensures forall j :: 0 <= j < |e| && e[j].user != u ==> r[j] == e[j]
    ensures forall j :: |e| <= j < |r| ==> r[j] == Binding(u, h)
  {
    match KeyIndex(e, u)
    case None =>
      var r := e + [Binding(u, h)];
      assert r[|e|] == Binding(u, h);
      assert forall j :: 0 <= j < |e| ==> r[j] == e[j];
      r
    case Some(i) =>
      var r := e[i := Binding(u, h)];
      assert r[i] == Binding(u, h);
      r
  }

  /** `set` for one user leaves every other user's lookup as it was. */
  lemma SetKeepsOthers(e: seq<Binding>, u: UserId, h: SocketId, v: UserId)
    requires KeysDistinct(e) && v != u
    ensures Get(Set(e, u, h), v) == Get(e, v)
  {
    var r := Set(e, u, h);
    if Get(e, v).Some? {
      var k :| 0 <= k < |e| && e[k] == Binding(v, Get(e, v).value);
      assert r[k] == e[k];
      GetAt(r, v, k);
    } else {
      assert forall j :: 0 <= j < |r| ==> r[j].user != v;
    }
  }

  /** The disconnect loop: delete the first binding whose socket is `h`, and
      stop. */
  function RemoveFirstSocket(e: seq<Binding>, h: SocketId): (r: seq<Binding>)
    ensures |r| == if exists j :: 0 <= j < |e| && e[j].socket == h then |e| - 1 else |e|
    ensures forall b :: b in r ==> b in e
    ensures SocketIndex(e, h).Some? ==> var i := SocketIndex(e, h).value;
      && (forall j :: 0 <= j < i ==> r[j] == e[j])
      && (forall j :: i <= j < |r| ==> r[j] == e[j + 1])
  {
    match SocketIndex(e, h)
    case None => e
    case Some(i) =>
      var r := e[..i] + e[i + 1..];
      assert forall j :: 0 <= j < i ==> r[j] == e[j];
      assert forall j :: i <= j < |r| ==> r[j] == e[j + 1];
      r
  }

  /** The disconnect keeps the map's invariant, and an unknown socket
      changes nothing. */
  lemma RemoveFirstSocketShape(e: seq<Binding>, h: SocketId)
    requires KeysDistinct(e)
    ensures KeysDistinct(RemoveFirstSocket(e, h))
    ensures UserOf(e, h).None? ==> RemoveFirstSocket(e, h) == e
    ensures UserOf(e, h).Some? ==> |RemoveFirstSocket(e, h)| == |e| - 1
    ensures UserOf(e, h).Some? ==> Get(RemoveFirstSocket(e, h), UserOf(e, h).value).None?
  {
    var r := RemoveFirstSocket(e, h);
    match SocketIndex(e, h)
    case None =>
    case Some(i) =>
      assert forall j :: 0 <= j < i ==> r[j] == e[j];
      assert forall j :: i <= j < |r| ==> r[j] == e[j + 1];
  }

  /** What disconnect does to the lookups: only the user of the first
      binding for `h` goes offline; every other user keeps its socket. */
  lemma RemoveFirstSocketKeepsOthers(e: seq<Binding>, h: SocketId, v: UserId)
    requires KeysDistinct(e)
    requires UserOf(e, h) != Some(v)
    ensures Get(RemoveFirstSocket(e, h), v) == Get(e, v)
  {
    var r := RemoveFirstSocket(e, h);
    RemoveFirstSocketShape(e, h);
    match SocketIndex(e, h)
    case None =>
    case Some(i) =>
      if Get(e, v).Some? {
        var k :| 0 <= k < |e| && e[k] == Binding(v, Get(e, v).value);
        assert k != i;
        if k < i {
          assert r[k] == e[k];
          GetAt(r, v, k);
        } else {
          assert r[k - 1] == e[k];
          GetAt(r, v, k - 1);
        }
      } else {
        assert forall j :: 0 <= j < |r| ==> r[j] in e;
      }
  }

  /** Disconnecting one socket keeps the order of the bindings that stay,
      so the reverse lookup of every other socket still answers the same
      user. */
  lemma RemoveFirstSocketKeepsUserOf(e: seq<Binding>, h: SocketId, g: SocketId)
    requires g != h
    ensures UserOf(RemoveFirstSocket(e, h), g) == UserOf(e, g)
  {
    match SocketIndex(e, h)
    case None =>
    case Some(i) =>
      DropKeepsUserOf(e, RemoveFirstSocket(e, h), i, g);
  }

  /** Dropping position `i`, whose socket is not `g`, and keeping the rest
      in order leaves the reverse lookup of `g` unchanged. */
  lemma DropKeepsUserOf(e: seq<Binding>, r: seq<Binding>, i: nat, g: SocketId)
    requires i < |e| && |r| == |e| - 1 && e[i].socket != g
    requires forall j :: 0 <= j < i ==> r[j] == e[j]
    requires forall j :: i <= j < |r| ==> r[j] == e[j + 1]
    ensures UserOf(r, g) == UserOf(e, g)
  {
    match SocketIndex(e, g)
    case None =>
      assert forall j :: 0 <= j < |r| ==> r[j].socket != g by {
        assert forall j :: 0 <= j < |r| ==> r[j] == e[j] || r[j] == e[j + 1];
      }
      assert SocketIndex(r, g).None?;
    case Some(k) =>
      if k < i {
        SocketIndexAt(r, g, k);
        assert UserOf(r, g) == Some(r[k].user) == Some(e[k].user);
      } else {
        assert forall j :: i <= j < k - 1 ==> r[j].socket == e[j + 1].socket;
        SocketIndexAt(r, g, k - 1);
        assert UserOf(r, g) == Some(r[k - 1].user) == Some(e[k].user);
      }
  }

  /** The first position holding the socket is the one `SocketIndex`
      answers. */
  lemma SocketIndexAt(e: seq<Binding>, h: SocketId, k: nat)
    requires k < |e| && e[k].socket == h
    requires forall j :: 0 <= j < k ==> e[j].socket != h
    ensures SocketIndex(e, h) == Some(k)
  {
  }

  /** Identify twice as the same user: the second socket wins, no other
      user is affected, and disconnecting the first socket afterwards leaves
      the second binding in place. */
  lemma RebindSurvivesStaleDisconnect(e: seq<Binding>, u: UserId, h1: SocketId, h2: SocketId, w: UserId)
    requires KeysDistinct(e) && h1 != h2
    ensures Get(Set(Set(e, u, h1), u, h2), u) == Some(h2)
    ensures w != u ==> Get(Set(Set(e, u, h1), u, h2), w) == Get(e, w)
    ensures Get(RemoveFirstSocket(Set(Set(e, u, h1), u, h2), h1), u) == Some(h2)
  {
    var e1 := Set(e, u, h1);
    var e2 := Set(e1, u, h2);
    if w != u {
      SetKeepsOthers(e, u, h1, w);
      SetKeepsOthers(e1, u, h2, w);
    }
    match SocketIndex(e2, h1)
    case None =>
    case Some(i) =>
      GetAt(e2, e2[i].user, i);
    RemoveFirstSocketKeepsOthers(e2, h1, u);
  }

  /** Identify does not drop an older binding of the same socket: after a
      new user `u` identifies on socket `h`, which user `v` already holds,
      both users map to `h`, and the reverse lookup still answers the
      earlier user. A disconnect of `h` then removes only that earlier
      binding and leaves `u` bound to the closed socket. */
  lemma SharedSocketAfterIdentify(e: seq<Binding>, u: UserId, v: UserId, h: SocketId)
    requires KeysDistinct(e)
    requires Get(e, v) == Some(h) && Get(e, u).None?
    ensures Get(Set(e, u, h), u) == Some(h) && Get(Set(e, u, h), v) == Some(h)
    ensures UserOf(Set(e, u, h), h) == UserOf(e, h) && UserOf(e, h) != Some(u)
    ensures Get(RemoveFirstSocket(Set(e, u, h), h), u) == Some(h)
  {
    SetKeepsOthers(e, u, h, v);
    SetNewUserKeepsUserOf(e, u, h);
    RemoveFirstSocketKeepsOthers(Set(e, u, h), h, u);
  }

  /** Binding a user who has no binding yet appends after every existing
      binding, so a socket that is already taken keeps answering its
      earlier user in the reverse lookup. */
  lemma SetNewUserKeepsUserOf(e: seq<Binding>, u: UserId, h: SocketId)
    requires Get(e, u).None? && UserOf(e, h).Some?
    ensures UserOf(Set(e, u, h), h) == UserOf(e, h) != Some(u)
  {
    var e1 := Set(e, u, h);
    var i := SocketIndex(e, h).value;
    assert SocketIndex(e1, h) == Some(i) by {
      assert e1[i] == e[i];
      assert forall j :: 0 <= j < i ==> e1[j] == e[j];
    }
    assert e[i].user != u;
  }

  /** The handlers' roundabout "sender socket" is simply the requesting
      socket when some user is bound to it, and nothing otherwise. */
  lemma SenderSocketIsOwnSocket(e: seq<Binding>, h: SocketId)
    requires KeysDistinct(e)
    ensures SenderSocket(e, h) == (if exists j :: 0 <= j < |e| && e[j].socket == h then Some(h) else None)
  {
    match SocketIndex(e, h)
    case None =>
    case Some(i) =>
      assert e[i].socket == h;
  }
}
