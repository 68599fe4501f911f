/** The real-time relay: authenticating a socket connection, the rooms it
    is in, and the `joinMatch`, `message` and `react` events as transitions of
    the store and the connection that emit events to rooms. Token
    verification is an oracle from a token to its claims. */
module Chat {
  import opened Base
  import opened Text
  import opened Models
  import opened Messages

  /** `user:<id>` and `match:<id>`. */
  datatype Room = UserRoom(user: UserId) | MatchRoom(matchId: MatchId)

  /** The claims of a verified token; the `id` claim may be absent. */
  datatype Claims = Claims(id: Option<UserId>)

  datatype Conn =
    | Rejected(reason: string)
    | Open(userId: Option<UserId>, rooms: set<Room>)

  datatype Event =
    | MessageOut(posted: Posted)
    | NewMessage(matchId: MatchId, messageId: MessageId, from: UserId, content: string, createdAt: int)
    | ReactionOut(messageId: MessageId, reactions: seq<Reaction>)

  datatype Emit = Emit(room: Room, event: Event)

  /** The store, the connection and the emissions after an event. */
  datatype Relay = Relay(store: Store, conn: Conn, out: seq<Emit>)

  /** A handshake field holding a non-empty string. */
  predicate Present(t: Option<string>) {
    t.Some? && t.value != ""
  }

  /** `auth.token || query.token`. */
  function HandshakeToken(auth: Option<string>, query: Option<string>): (r: Option<string>)
    ensures r.Some? <==> Present(auth) || Present(query)
    ensures Present(auth) ==> r == auth
    ensures !Present(auth) && Present(query) ==> r == query
    ensures r.Some? ==> r.value != ""
  {
    if Present(auth) then auth else if Present(query) then query else None
  }

  /** The authentication middleware followed by the personal-room join. */
  function Connect(auth: Option<string>, query: Option<string>, verify: string -> Option<Claims>): (c: Conn)
    ensures HandshakeToken(auth, query).None? ==> c == Rejected("No token")
    ensures HandshakeToken(auth, query).Some? && verify(HandshakeToken(auth, query).value).None?
            ==> c == Rejected("Auth failed")
    ensures c.Open? <==> HandshakeToken(auth, query).Some? && verify(HandshakeToken(auth, query).value).Some?
    ensures c.Open? ==> c.userId == verify(HandshakeToken(auth, query).value).value.id
    ensures c.Open? ==> c.rooms == if Present(c.userId) then {UserRoom(c.userId.value)} else {}
  {
    match HandshakeToken(auth, query)
    case None => Rejected("No token")
    case Some(t) =>
      match verify(t)
      case None => Rejected("Auth failed")
      case Some(claims) =>
        Open(claims.id, if Present(claims.id) then {UserRoom(claims.id.value)} else {})
  }

  /** The membership check the handlers apply to the connection's user. */
  predicate MemberOf(s: Store, c: Conn, matchId: MatchId) {
    c.Open? && c.userId.Some? && IsMember(s, matchId, c.userId.value)
  }

  /** `joinMatch`: a member joins the match room; anything else is ignored. */
  function JoinMatch(s: Store, c: Conn, matchId: MatchId): (r: Relay)
    requires c.Open?
    ensures r.store == s && r.out == [] && r.conn.Open? && r.conn.userId == c.userId
    ensures MemberOf(s, c, matchId) ==> r.conn.rooms == c.rooms + {MatchRoom(matchId)}
    ensures !MemberOf(s, c, matchId) ==> r.conn == c
  {
    if MemberOf(s, c, matchId) then Relay(s, c.(rooms := c.rooms + {MatchRoom(matchId)}), [])
    else Relay(s, c, [])
  }

  /** The `message` event. Blank or missing content and non-members are
      dropped before anything is read; a match without a second member
      makes the message creation fail, which drops the event too. A
      delivered message is stored first, then broadcast to the match room
      and announced to the recipient's personal room. */
  function SendEvent(s: Store, c: Conn, matchId: MatchId, content: Option<string>, now: int): (r: Relay)
    requires c.Open?
    ensures r.conn == c
    ensures content.None? || Blank(content.value) || !MemberOf(s, c, matchId) ==> r == Relay(s, c, [])
    ensures r.out == [] ==> r.store == s
    ensures r.out != [] ==>
      && content.Some? && !Blank(content.value) && MemberOf(s, c, matchId)
      && var sender := c.userId.value;
      && var recipient := OtherMember(s.matches[matchId].users, sender);
      && recipient.Some?
      && var d := Deliver(s, matchId, sender, recipient.value, content.value, now);
      && r.store == d.store
      && r.out == [Emit(MatchRoom(matchId), MessageOut(d.reply.value)),
                   Emit(UserRoom(recipient.value),
                        NewMessage(matchId, d.reply.value.id, sender, d.reply.value.message.content, now))]
  {
    if content.None? || Blank(content.value) || !MemberOf(s, c, matchId) then Relay(s, c, [])
    else
      var sender := c.userId.value;
      match OtherMember(s.matches[matchId].users, sender)
      case None => Relay(s, c, [])
      case Some(recipient) =>
        var d := Deliver(s, matchId, sender, recipient, content.value, now);
        var p := d.reply.value;
        Relay(d.store, c, [Emit(MatchRoom(matchId), MessageOut(p)),
                           Emit(UserRoom(recipient), NewMessage(matchId, p.id, sender, p.message.content, now))])
  }

  /** The `react` event: dropped for an unknown kind, a non-member, a missing
      message or a message of another match; otherwise the toggle is saved
      and the new reactions are broadcast to the match room. */
  function ReactEvent(s: Store, c: Conn, matchId: MatchId, messageId: MessageId, kind: Json, now: int)
    : (r: Relay)
    requires c.Open?
    ensures r.conn == c
    ensures r.out != [] <==>
              && ParseKind(kind).Some? && MemberOf(s, c, matchId)
              && messageId < |s.messages| && s.messages[messageId].matchId == matchId
    ensures r.out == [] ==> r.store == s
    ensures r.out != [] ==>
      && r.store == ApplyReaction(s, messageId, c.userId.value, ParseKind(kind).value, now)
      && r.out == [Emit(MatchRoom(matchId), ReactionOut(messageId, r.store.messages[messageId].reactions))]
  {
    match ParseKind(kind)
    case None => Relay(s, c, [])
    case Some(k) =>
      if !MemberOf(s, c, matchId) then Relay(s, c, [])
      else if messageId >= |s.messages| || s.messages[messageId].matchId != matchId then Relay(s, c, [])
      else
        var s' := ApplyReaction(s, messageId, c.userId.value, k, now);
        Relay(s', c, [Emit(MatchRoom(matchId), ReactionOut(messageId, s'.messages[messageId].reactions))])
  }

  /** Everything an event emits is already in the store it leaves behind. */
  predicate Persisted(r: Relay) {
    forall e :: e in r.out ==>
      match e.event
      case MessageOut(p) => p.id < |r.store.messages| && r.store.messages[p.id] == p.message
      case NewMessage(m, id, from, content, at) =>
        id < |r.store.messages| && r.store.messages[id].content == content
        && r.store.messages[id].matchId == m && r.store.messages[id].sender == from
      case ReactionOut(id, rs) => id < |r.store.messages| && r.store.messages[id].reactions == rs
  }

  lemma SendPersistsBeforeEmit(s: Store, c: Conn, matchId: MatchId, content: Option<string>, now: int)
    requires c.Open?
    ensures Persisted(SendEvent(s, c, matchId, content, now))
  {
    var r := SendEvent(s, c, matchId, content, now);
    if r.out != [] {
      assert r.store.messages[|s.messages|] == r.out[0].event.posted.message;
    }
  }

  lemma ReactPersistsBeforeEmit(s: Store, c: Conn, matchId: MatchId, messageId: MessageId, kind: Json, now: int)
    requires c.Open?
    ensures Persisted(ReactEvent(s, c, matchId, messageId, kind, now))
  {
  }

  /** The notification reaches the other member of the match, not the
      sender. */
  lemma SendNotifiesRecipient(s: Store, c: Conn, matchId: MatchId, content: Option<string>, now: int)
    requires c.Open?
    ensures var r := SendEvent(s, c, matchId, content, now);
      r.out != [] ==>
        && r.out[1].room.UserRoom?
        && r.out[1].room.user != c.userId.value
        && r.out[1].room.user in s.matches[matchId].users
        && r.out[0].room == MatchRoom(matchId)
  {
  }

  /** A delivered socket message leaves the store exactly as the HTTP send
      does; a blank one, which the socket drops, is one the HTTP send
      rejects without storing anything. */
  lemma SendAgreesWithHttp(s: Store, c: Conn, matchId: MatchId, content: Option<string>, now: int)
    requires c.Open? && c.userId.Some?
    ensures var r := SendEvent(s, c, matchId, content, now);
            var h := SendMessage(s, matchId, c.userId.value, content, now);
      && r.store == h.store
      && (r.out != [] <==> h.reply.Ok?)
      && (r.out != [] ==> r.out[0].event.posted == h.reply.value)
  {
  }

  /** For a message of the named match, a socket reaction and an HTTP
      reaction by the same user leave the same store. */
  lemma ReactAgreesWithHttp(s: Store, c: Conn, matchId: MatchId, messageId: MessageId, kind: Json, now: int)
    requires c.Open? && c.userId.Some?
    requires messageId < |s.messages| && s.messages[messageId].matchId == matchId
    ensures var r := ReactEvent(s, c, matchId, messageId, kind, now);
            var h := React(s, messageId, c.userId.value, kind, now);
      && r.store == h.store
      && (r.out != [] <==> h.reply.Ok?)
  {
  }

  /** The rooms a connection is in are its own personal room and the rooms
      of matches its user belongs to. */
  ghost predicate Authorized(s: Store, c: Conn) {
    c.Open? &&
    forall room :: room in c.rooms ==>
      match room
      case UserRoom(u) => c.userId == Some(u)
      case MatchRoom(m) => MemberOf(s, c, m)
  }

  lemma ConnectAuthorized(s: Store, auth: Option<string>, query: Option<string>, verify: string -> Option<Claims>)
    requires Connect(auth, query, verify).Open?
    ensures Authorized(s, Connect(auth, query, verify))
  {
  }

  /** No event lets a connection into a room it is not entitled to. */
  lemma EventsKeepAuthorized(s: Store, c: Conn, matchId: MatchId, messageId: MessageId,
                             content: Option<string>, kind: Json, now: int)
    requires Authorized(s, c)
    ensures var r := JoinMatch(s, c, matchId); Authorized(r.store, r.conn)
    ensures var r := SendEvent(s, c, matchId, content, now); Authorized(r.store, r.conn)
    ensures var r := ReactEvent(s, c, matchId, messageId, kind, now); Authorized(r.store, r.conn)
  {
    var j := JoinMatch(s, c, matchId);
    assert forall room :: room in j.conn.rooms ==> room in c.rooms || room == MatchRoom(matchId);
    var m := SendEvent(s, c, matchId, content, now);
    forall room | room in c.rooms && room.MatchRoom? ensures MemberOf(m.store, c, room.matchId) {
      assert MemberOf(s, c, room.matchId);
      if m.out != [] {
        assert m.store.matches[room.matchId].users == s.matches[room.matchId].users;
      }
    }
  }
}
