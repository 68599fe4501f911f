/** The message store behind a match: the membership-gated listing and
    sending of messages, and the one-reaction-per-user toggle. The HTTP
    handlers and the real-time relay share the store updates defined here. */
module Messages {
  import opened Base
  import opened Text
  import opened Models
  import opened Sorting

  /** A stored message together with its id. */
  datatype Posted = Posted(id: MessageId, message: Message)

  /** The messages of match `m`, each with its id, in store order. */
  function Thread(msgs: seq<Message>, m: MatchId): (r: seq<Posted>)
    ensures forall p :: p in r ==> p.id < |msgs| && msgs[p.id] == p.message && p.message.matchId == m
    ensures forall i :: 0 <= i < |msgs| && msgs[i].matchId == m ==> Posted(i, msgs[i]) in r
    ensures forall a, b :: 0 <= a < b < |r| ==> r[a].id < r[b].id
  {
    if msgs == [] then []
    else
      var n := |msgs| - 1;
      var init := Thread(msgs[..n], m);
      assert forall p :: p in init ==> p.id < n && msgs[p.id] == p.message;
      if msgs[n].matchId == m then
        var r := init + [Posted(n, msgs[n])];
        assert forall a :: 0 <= a < |init| ==> r[a] == init[a] && init[a] in init;
        r
      else init
  }

  /** Sort key that puts earlier messages first. */
  function Earliness(p: Posted): int { -p.message.createdAt }

  predicate Chronological(ps: seq<Posted>) {
    forall i, j :: 0 <= i < j < |ps| ==> ps[i].message.createdAt <= ps[j].message.createdAt
  }

  /** `getMessages`: the match's messages by ascending `createdAt`, for a
      member of the match only. */
  function ListMessages(s: Store, matchId: MatchId, user: UserId): (r: Response<seq<Posted>>)
    ensures r.Err? <==> !IsMember(s, matchId, user)
    ensures r.Err? ==> r.failure == Forbidden
    ensures r.Ok? ==> Chronological(r.value)
    ensures r.Ok? ==> multiset(r.value) == multiset(Thread(s.messages, matchId))
  {
    if !IsMember(s, matchId, user) then Err(Forbidden)
    else
      var r := SortDesc(Thread(s.messages, matchId), Earliness);
      assert Chronological(r) by {
        forall i, j | 0 <= i < j < |r| ensures r[i].message.createdAt <= r[j].message.createdAt {
          assert Earliness(r[i]) >= Earliness(r[j]);
        }
      }
      Ok(r)
  }

  /** A member's listing holds exactly the match's stored messages, with
      their ids. */
  lemma ListMessagesContents(s: Store, matchId: MatchId, user: UserId)
    requires IsMember(s, matchId, user)
    ensures var r := ListMessages(s, matchId, user).value;
      && (forall p :: p in r ==> p.id < |s.messages| && s.messages[p.id] == p.message && p.message.matchId == matchId)
      && (forall i :: 0 <= i < |s.messages| && s.messages[i].matchId == matchId ==> Posted(i, s.messages[i]) in r)
  {
    var r := ListMessages(s, matchId, user).value;
    var t := Thread(s.messages, matchId);
    forall p | p in r ensures p in t {
      assert p in multiset(r);
    }
    forall i | 0 <= i < |s.messages| && s.messages[i].matchId == matchId
      ensures Posted(i, s.messages[i]) in r
    {
      assert Posted(i, s.messages[i]) in multiset(t);
    }
  }

  /** Messages sent at the same time are listed in the order they were
      stored. */
  lemma ListMessagesStable(s: Store, matchId: MatchId, user: UserId, k: int)
    requires IsMember(s, matchId, user)
    ensures WithKey(ListMessages(s, matchId, user).value, Earliness, k)
            == WithKey(Thread(s.messages, matchId), Earliness, k)
  {
    SortDescStable(Thread(s.messages, matchId), Earliness, k);
  }

  /** Stores a new message in match `matchId` and updates the match's
      preview: the content is stored trimmed and `lastMessage` becomes the raw
      content. The timestamps plugin touches the match at `now` only when
      the save changes it, so re-sending the current preview keeps the old
      `updatedAt`. */
  function Deliver(s: Store, matchId: MatchId, sender: UserId, recipient: UserId,
                   content: string, now: int): (r: Step<Posted>)
    requires matchId < |s.matches| && !Blank(content)
    ensures r.reply.Ok? && r.reply.value.id == |s.messages|
    ensures r.store.messages == s.messages + [r.reply.value.message]
    ensures ValidMessage(r.reply.value.message)
    ensures r.reply.value.message == Message(matchId, sender, recipient, Trim(content), [], now)
    ensures |r.store.matches| == |s.matches|
    ensures r.store.matches[matchId].lastMessage == content
    ensures r.store.matches[matchId].users == s.matches[matchId].users
    ensures r.store.matches[matchId].createdAt == s.matches[matchId].createdAt
    ensures content != s.matches[matchId].lastMessage ==> r.store.matches[matchId].updatedAt == now
    ensures content == s.matches[matchId].lastMessage ==> r.store.matches[matchId] == s.matches[matchId]
    ensures forall i :: 0 <= i < |s.matches| && i != matchId ==> r.store.matches[i] == s.matches[i]
    ensures r.store.users == s.users && r.store.answers == s.answers
  {
    var msg := Message(matchId, sender, recipient, Trim(content), [], now);
    var cur := s.matches[matchId];
    var m := if content == cur.lastMessage then cur else cur.(lastMessage := content, updatedAt := now);
    Step(s.(messages := s.messages + [msg], matches := s.matches[matchId := m]),
         Ok(Posted(|s.messages|, msg)))
  }

  /** `sendMessage`. `content` is `None` when the body carries no string.
      There is no blank check in the handler itself: a blank content, like a
      match without a second member, fails the message schema and the
      request ends in a server error with nothing stored. */
  function SendMessage(s: Store, matchId: MatchId, sender: UserId, content: Option<string>, now: int)
    : (r: Step<Posted>)
    ensures !IsMember(s, matchId, sender) ==> r == Step(s, Err(Forbidden))
    ensures IsMember(s, matchId, sender) && r.reply.Err? ==> r == Step(s, Err(Throws))
    ensures r.reply.Ok? <==>
              && IsMember(s, matchId, sender)
              && OtherMember(s.matches[matchId].users, sender).Some?
              && content.Some? && !Blank(content.value)
    ensures r.reply.Ok? ==>
              r == Deliver(s, matchId, sender, OtherMember(s.matches[matchId].users, sender).value,
                           content.value, now)
  {
    if !IsMember(s, matchId, sender) then Step(s, Err(Forbidden))
    else match OtherMember(s.matches[matchId].users, sender)
      case None => Step(s, Err(Throws))
      case Some(recipient) =>
        if content.None? || Blank(content.value) then Step(s, Err(Throws))
        else Deliver(s, matchId, sender, recipient, content.value, now)
  }

  /** A successful send is addressed to the other member, stores the trimmed
      content, keeps the raw content as the preview, and appears in both
      members' listings. */
  lemma SendDelivers(s: Store, matchId: MatchId, sender: UserId, content: string, now: int)
    requires IsMember(s, matchId, sender)
    requires exists i :: 0 <= i < |s.matches[matchId].users| && s.matches[matchId].users[i] != sender
    requires !Blank(content)
    ensures var r := SendMessage(s, matchId, sender, Some(content), now);
      && r.reply.Ok?
      && var msg := r.reply.value.message;
      && msg.recipient in s.matches[matchId].users && msg.recipient != sender
      && msg.sender == sender && msg.content == Trim(content) && msg.content != ""
      && r.store.matches[matchId].lastMessage == content
      && IsMember(r.store, matchId, msg.recipient)
      && r.reply.value in ListMessages(r.store, matchId, sender).value
      && r.reply.value in ListMessages(r.store, matchId, msg.recipient).value
  {
    var r := SendMessage(s, matchId, sender, Some(content), now);
    var msg := r.reply.value.message;
    ListMessagesContents(r.store, matchId, sender);
    ListMessagesContents(r.store, matchId, msg.recipient);
    assert r.store.messages[|s.messages|] == msg;
  }

  /** Every stored message keeps satisfying its schema across sends. */
  lemma SendKeepsMessagesValid(s: Store, matchId: MatchId, sender: UserId, content: Option<string>, now: int)
    requires ValidMessages(s)
    ensures ValidMessages(SendMessage(s, matchId, sender, content, now).store)
  {
    var r := SendMessage(s, matchId, sender, content, now);
    if r.reply.Ok? {
      forall i | 0 <= i < |r.store.messages| ensures ValidMessage(r.store.messages[i]) {
        if i < |s.messages| {
          assert r.store.messages[i] == s.messages[i];
        }
      }
    }
  }

  /** Position of `user`'s reaction, if any (`findIndex`). */
  function ReactionOf(rs: seq<Reaction>, user: UserId): (r: Option<nat>)
    ensures r.Some? ==> r.value < |rs| && rs[r.value].user == user
    ensures r.Some? ==> forall i :: 0 <= i < r.value ==> rs[i].user != user
    ensures r.None? <==> forall i :: 0 <= i < |rs| ==> rs[i].user != user
  {
    if rs == [] then None
    else if rs[0].user == user then Some(0)
    else match ReactionOf(rs[1..], user)
      case None => None
      case Some(i) => Some(i + 1)
  }

  /** The toggle both reaction paths apply: reacting again with the same kind
      withdraws the reaction, another kind replaces it in place (with a new
      timestamp), and a first reaction is appended. */
  function Toggle(rs: seq<Reaction>, user: UserId, kind: ReactionKind, now: int): (r: seq<Reaction>)
    ensures ReactionOf(rs, user).None? ==> r == rs + [Reaction(user, kind, now)]
    ensures ReactionOf(rs, user).Some? ==>
      var i := ReactionOf(rs, user).value;
      if rs[i].kind == kind then r == RemoveAt(rs, i) else r == rs[i := Reaction(user, kind, now)]
  {
    match ReactionOf(rs, user)
    case None => rs + [Reaction(user, kind, now)]
    case Some(i) => if rs[i].kind == kind then RemoveAt(rs, i) else rs[i := Reaction(user, kind, now)]
  }

  /** No user has two reactions on the message. */
  predicate OnePerUser(rs: seq<Reaction>) {
    forall i, j :: 0 <= i < j < |rs| ==> rs[i].user != rs[j].user
  }

  /** The reactions by `user` (`mine`) or by everyone else (`!mine`), in
      order. */
  function Keep(rs: seq<Reaction>, user: UserId, mine: bool): seq<Reaction> {
    if rs == [] then []
    else (if (rs[0].user == user) == mine then [rs[0]] else []) + Keep(rs[1..], user, mine)
  }

  lemma {:induction false} KeepAppend(a: seq<Reaction>, b: seq<Reaction>, user: UserId, mine: bool)
    ensures Keep(a + b, user, mine) == Keep(a, user, mine) + Keep(b, user, mine)
  {
    if a == [] {
      assert a + b == b;
    } else {
      assert (a + b)[1..] == a[1..] + b;
      KeepAppend(a[1..], b, user, mine);
    }
  }

  lemma {:induction false} KeepNone(rs: seq<Reaction>, user: UserId, mine: bool)
    requires forall i :: 0 <= i < |rs| ==> (rs[i].user == user) != mine
    ensures Keep(rs, user, mine) == []
  {
    if rs != [] {
      KeepNone(rs[1..], user, mine);
    }
  }

  /** `rs` with the entry at `i` replaced by `x` splits around `i`. */
  lemma Around(rs: seq<Reaction>, i: nat, x: Reaction)
    requires i < |rs|
    ensures rs == rs[..i] + [rs[i]] + rs[i + 1..]
    ensures rs[i := x] == rs[..i] + [x] + rs[i + 1..]
    ensures RemoveAt(rs, i) == rs[..i] + rs[i + 1..]
  {
  }

  /** The toggle never gives a user a second reaction. */
  lemma ToggleKeepsOnePerUser(rs: seq<Reaction>, user: UserId, kind: ReactionKind, now: int)
    requires OnePerUser(rs)
    ensures OnePerUser(Toggle(rs, user, kind, now))
  {
    var r := Toggle(rs, user, kind, now);
    match ReactionOf(rs, user)
    case None =>
    case Some(i) =>
      if rs[i].kind == kind {
        forall a, b | 0 <= a < b < |r| ensures r[a].user != r[b].user {
          var a', b' := if a < i then a else a + 1, if b < i then b else b + 1;
          assert r[a] == rs[a'] && r[b] == rs[b'];
        }
      }
  }

  lemma KeepAround(pre: seq<Reaction>, x: Reaction, post: seq<Reaction>, user: UserId, mine: bool)
    ensures Keep(pre + [x] + post, user, mine)
            == Keep(pre, user, mine) + (if (x.user == user) == mine then [x] else []) + Keep(post, user, mine)
  {
    KeepAppend(pre + [x], post, user, mine);
    KeepAppend(pre, [x], user, mine);
  }

  /** Other users' reactions are untouched, in content and order. */
  lemma ToggleKeepsOthers(rs: seq<Reaction>, user: UserId, kind: ReactionKind, now: int)
    ensures Keep(Toggle(rs, user, kind, now), user, false) == Keep(rs, user, false)
  {
    var x := Reaction(user, kind, now);
    var r := Toggle(rs, user, kind, now);
    match ReactionOf(rs, user)
    case None =>
      assert r == rs + [x];
      KeepAround(rs, x, [], user, false);
      assert rs + [x] + [] == r;
      assert Keep(r, user, false) == Keep(rs, user, false) + Keep([], user, false);
    case Some(i) =>
      var pre, post := rs[..i], rs[i + 1..];
      assert rs == pre + [rs[i]] + post;
      KeepAround(pre, rs[i], post, user, false);
      var others := Keep(pre, user, false) + Keep(post, user, false);
      assert Keep(rs, user, false) == others;
      if rs[i].kind == kind {
        assert r == pre + post;
        KeepAppend(pre, post, user, false);
      } else {
        assert r == pre + [x] + post;
        KeepAround(pre, x, post, user, false);
      }
  }

  /** The user's own reactions become none (a withdrawal) or exactly the
      new one. */
  lemma ToggleOwn(rs: seq<Reaction>, user: UserId, kind: ReactionKind, now: int)
    requires OnePerUser(rs)
    ensures Keep(Toggle(rs, user, kind, now), user, true) ==
              (if ReactionOf(rs, user).Some? && rs[ReactionOf(rs, user).value].kind == kind then []
               else [Reaction(user, kind, now)])
  {
    var x := Reaction(user, kind, now);
    match ReactionOf(rs, user)
    case None =>
      KeepAppend(rs, [x], user, true);
      KeepNone(rs, user, true);
    case Some(i) =>
      Around(rs, i, x);
      var pre, post := rs[..i], rs[i + 1..];
      KeepNone(pre, user, true);
      assert forall k :: 0 <= k < |post| ==> post[k] == rs[i + 1 + k];
      KeepNone(post, user, true);
      if rs[i].kind == kind {
        KeepAppend(pre, post, user, true);
      } else {
        KeepAround(pre, x, post, user, true);
      }
  }

  /** Reacting twice with the same kind, from no reaction, leaves the
      reactions as they were. */
  lemma ToggleTwice(rs: seq<Reaction>, user: UserId, kind: ReactionKind, t1: int, t2: int)
    requires ReactionOf(rs, user).None?
    ensures Toggle(Toggle(rs, user, kind, t1), user, kind, t2) == rs
  {
    var once := rs + [Reaction(user, kind, t1)];
    assert once[|rs|].user == user;
    assert forall k :: 0 <= k < |rs| ==> once[k] == rs[k];
    assert once[..|rs|] == rs;
  }

  /** Every message's reactions hold at most one per user. */
  predicate ReactionsWellFormed(s: Store) {
    forall i :: 0 <= i < |s.messages| ==> OnePerUser(s.messages[i].reactions)
  }

  /** The `type` check: a string naming one of the three kinds. */
  function ParseKind(v: Json): (r: Option<ReactionKind>)
    ensures r.Some? <==> v.Str? && v.s in {"love", "like", "funny"}
    ensures r.Some? ==> ReactionName(r.value) == v.s
  {
    if v.Str? then ParseReaction(v.s) else None
  }

  /** Applies the toggle to a stored message and saves it. */
  function ApplyReaction(s: Store, messageId: MessageId, user: UserId, kind: ReactionKind, now: int)
    : (r: Store)
    requires messageId < |s.messages|
    ensures |r.messages| == |s.messages|
    ensures r.messages[messageId] == s.messages[messageId].(reactions :=
              Toggle(s.messages[messageId].reactions, user, kind, now))
    ensures forall i :: 0 <= i < |s.messages| && i != messageId ==> r.messages[i] == s.messages[i]
    ensures r.users == s.users && r.matches == s.matches && r.answers == s.answers
  {
    var m := s.messages[messageId];
    s.(messages := s.messages[messageId := m.(reactions := Toggle(m.reactions, user, kind, now))])
  }

  /** `reactToMessage`: kind check (400), message lookup (404), membership of
      the message's match (403), then the toggle. */
  function React(s: Store, messageId: MessageId, user: UserId, kind: Json, now: int): (r: Step<Posted>)
    ensures ParseKind(kind).None? ==> r == Step(s, Err(BadRequest("Invalid reaction")))
    ensures ParseKind(kind).Some? && messageId >= |s.messages| ==>
              r == Step(s, Err(NotFound("Message not found")))
    ensures (ParseKind(kind).Some? && messageId < |s.messages|
             && !IsMember(s, s.messages[messageId].matchId, user)) ==> r == Step(s, Err(Forbidden))
    ensures r.reply.Ok? <==>
              ParseKind(kind).Some? && messageId < |s.messages| && IsMember(s, s.messages[messageId].matchId, user)
    ensures r.reply.Ok? ==>
              && r.store == ApplyReaction(s, messageId, user, ParseKind(kind).value, now)
              && r.reply.value == Posted(messageId, r.store.messages[messageId])
  {
    match ParseKind(kind)
    case None => Step(s, Err(BadRequest("Invalid reaction")))
    case Some(k) =>
      if messageId >= |s.messages| then Step(s, Err(NotFound("Message not found")))
      else if !IsMember(s, s.messages[messageId].matchId, user) then Step(s, Err(Forbidden))
      else
        var s' := ApplyReaction(s, messageId, user, k, now);
        Step(s', Ok(Posted(messageId, s'.messages[messageId])))
  }

  /** Reacting keeps at most one reaction per user on every message, and
      keeps every message valid. */
  lemma ReactKeepsInvariants(s: Store, messageId: MessageId, user: UserId, kind: Json, now: int)
    requires ReactionsWellFormed(s) && ValidMessages(s)
    ensures ReactionsWellFormed(React(s, messageId, user, kind, now).store)
    ensures ValidMessages(React(s, messageId, user, kind, now).store)
  {
    var r := React(s, messageId, user, kind, now);
    if r.reply.Ok? {
      ToggleKeepsOnePerUser(s.messages[messageId].reactions, user, ParseKind(kind).value, now);
      forall i | 0 <= i < |r.store.messages|
        ensures OnePerUser(r.store.messages[i].reactions) && ValidMessage(r.store.messages[i])
      {
        if i != messageId {
          assert r.store.messages[i] == s.messages[i];
        }
      }
    }
  }
}
