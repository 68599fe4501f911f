/** The match list and match details: the populated members, the other
    member, the reasons shown on a match card, and the newest-first order of
    the list. */
module Matches {
  import opened Base
  import opened Models
  import opened MatchUtils
  import opened Sorting

  /** `populate('users')`: the stored users among `ids`, in order; an id
      without a stored user drops out. */
  function Populate(s: Store, ids: seq<UserId>): (r: seq<User>)
    ensures |r| <= |ids|
    ensures forall i :: 0 <= i < |ids| && ids[i] in s.users ==> s.users[ids[i]] in r
    ensures KeyedById(s) ==> forall u :: u in r ==> u.id in ids && u.id in s.users && s.users[u.id] == u
  {
    if ids == [] then []
    else
      var rest := Populate(s, ids[1..]);
      assert forall i :: 1 <= i < |ids| ==> ids[i] == ids[1..][i - 1];
      if ids[0] in s.users then [s.users[ids[0]]] + rest else rest
  }

  /** The first populated user whose id is (`same`) or is not (`!same`)
      `id`. */
  function FindUser(us: seq<User>, id: UserId, same: bool): (r: Option<User>)
    ensures r.Some? ==> r.value in us && (r.value.id == id) == same
    ensures r.None? <==> forall i :: 0 <= i < |us| ==> (us[i].id == id) != same
  {
    if us == [] then None
    else if (us[0].id == id) == same then Some(us[0])
    else FindUser(us[1..], id, same)
  }

  datatype Card = Card(id: MatchId, otherUser: Option<User>, lastMessage: string, updatedAt: int,
                       reasons: seq<string>, mutual: Mutual)

  /** The card of match `id` as `me` sees it. */
  function CardOf(s: Store, id: MatchId, me: UserId): (c: Card)
    requires id < |s.matches|
    ensures c.id == id && c.lastMessage == s.matches[id].lastMessage && c.updatedAt == s.matches[id].updatedAt
    ensures c.otherUser.Some? ==> c.otherUser.value.id != me && c.otherUser.value in Populate(s, s.matches[id].users)
    ensures c.otherUser.None? ==> forall u :: u in Populate(s, s.matches[id].users) ==> u.id == me
    ensures MatchReasons(c.reasons, c.mutual)
            == ComputeMatchReasons(ProfileOf(FindUser(Populate(s, s.matches[id].users), me, true)),
                                   ProfileOf(c.otherUser))
  {
    var us := Populate(s, s.matches[id].users);
    var other := FindUser(us, me, false);
    var mine := FindUser(us, me, true);
    var mr := ComputeMatchReasons(ProfileOf(mine), ProfileOf(other));
    Card(id, other, s.matches[id].lastMessage, s.matches[id].updatedAt, mr.reasons, mr.mutual)
  }

  /** The ids of the matches that list `me`, in store order. */
  function MatchesOf(ms: seq<Match>, me: UserId): (r: seq<MatchId>)
    ensures forall k :: 0 <= k < |r| ==> r[k] < |ms| && me in ms[r[k]].users
    ensures forall id: MatchId :: id < |ms| && me in ms[id].users ==> id in r
    ensures forall i, j :: 0 <= i < j < |r| ==> r[i] < r[j]
  {
    if ms == [] then []
    else
      var n := |ms| - 1;
      var init := MatchesOf(ms[..n], me);
      assert forall k :: 0 <= k < |init| ==> init[k] < n && ms[init[k]] == ms[..n][init[k]];
      assert forall id: MatchId :: id < n ==> ms[id] == ms[..n][id];
      if me in ms[n].users then
        init + [n]
      else init
  }

  function Recency(c: Card): int { c.updatedAt }

  function Cards(s: Store, ids: seq<MatchId>, me: UserId): (r: seq<Card>)
    requires forall i :: 0 <= i < |ids| ==> ids[i] < |s.matches|
    ensures |r| == |ids|
    ensures forall i :: 0 <= i < |ids| ==> r[i] == CardOf(s, ids[i], me) && r[i].id == ids[i]
  {
    seq(|ids|, i requires 0 <= i < |ids| => CardOf(s, ids[i], me))
  }

  /** The cards of the matches listing `me`, in store order. */
  function MyCards(s: Store, me: UserId): (r: seq<Card>)
    ensures forall c :: c in r ==> c.id < |s.matches| && me in s.matches[c.id].users && c == CardOf(s, c.id, me)
    ensures forall id: MatchId :: id < |s.matches| && me in s.matches[id].users ==> CardOf(s, id, me) in r
    ensures forall i, j :: 0 <= i < j < |r| ==> r[i].id < r[j].id
  {
    var ids := MatchesOf(s.matches, me);
    CardsOfMatches(s, me, ids);
    Cards(s, ids, me)
  }

  /** The cards of the ids of the matches listing `me` are exactly the cards
      of those matches. */
  lemma CardsOfMatches(s: Store, me: UserId, ids: seq<MatchId>)
    requires ids == MatchesOf(s.matches, me)
    ensures var r := Cards(s, ids, me);
      && (forall c :: c in r ==> c.id < |s.matches| && me in s.matches[c.id].users && c == CardOf(s, c.id, me))
      && (forall id: MatchId :: id < |s.matches| && me in s.matches[id].users ==> CardOf(s, id, me) in r)
  {
    CardsCover(s, me, ids);
    CardsOnlyMine(s, me, ids);
  }

  lemma CardsCover(s: Store, me: UserId, ids: seq<MatchId>)
    requires ids == MatchesOf(s.matches, me)
    ensures forall id: MatchId :: id < |s.matches| && me in s.matches[id].users ==> CardOf(s, id, me) in Cards(s, ids, me)
  {
    var r := Cards(s, ids, me);
    forall id: MatchId | id < |s.matches| && me in s.matches[id].users ensures CardOf(s, id, me) in r {
      var k :| 0 <= k < |ids| && ids[k] == id;
      assert r[k] == CardOf(s, id, me);
    }
  }

  lemma CardsOnlyMine(s: Store, me: UserId, ids: seq<MatchId>)
    requires ids == MatchesOf(s.matches, me)
    ensures forall c :: c in Cards(s, ids, me) ==>
              c.id < |s.matches| && me in s.matches[c.id].users && c == CardOf(s, c.id, me)
  {
    var r := Cards(s, ids, me);
    forall c | c in r ensures c.id < |s.matches| && me in s.matches[c.id].users && c == CardOf(s, c.id, me) {
      var k :| 0 <= k < |r| && r[k] == c;
      assert c.id == ids[k];
    }
  }

  /** `getMyMatches`: one card for every match listing `me`, most recently
      updated first, ties in store order. */
  function ListMatches(s: Store, me: UserId): (r: seq<Card>)
    ensures forall c :: c in r ==> c.id < |s.matches| && me in s.matches[c.id].users && c == CardOf(s, c.id, me)
    ensures forall id: MatchId :: id < |s.matches| && me in s.matches[id].users ==> CardOf(s, id, me) in r
    ensures forall i, j :: 0 <= i < j < |r| ==> r[i].id != r[j].id
    ensures SortedDesc(r, Recency)
  {
    var cards := MyCards(s, me);
    var r := SortDesc(cards, Recency);
    assert forall c :: c in r <==> c in cards by {
      forall c ensures c in r <==> c in cards {
        assert c in r <==> c in multiset(r);
      }
    }
    CardIdsPermutation(r, cards);
    r
  }

  /** Reordering cards with distinct ids keeps the ids distinct. */
  lemma CardIdsPermutation(r: seq<Card>, cs: seq<Card>)
    requires multiset(r) == multiset(cs)
    requires forall i, j :: 0 <= i < j < |cs| ==> cs[i].id < cs[j].id
    ensures forall i, j :: 0 <= i < j < |r| ==> r[i].id != r[j].id
  {
    assert NoDuplicates(cs) by {
      forall i, j | 0 <= i < j < |cs| ensures cs[i] != cs[j] {
        assert cs[i].id < cs[j].id;
      }
    }
    DistinctPermutation(r, cs);
    forall i, j | 0 <= i < j < |r| ensures r[i].id != r[j].id {
      assert r[i] in multiset(cs) && r[j] in multiset(cs);
      var a :| 0 <= a < |cs| && cs[a] == r[i];
      var b :| 0 <= b < |cs| && cs[b] == r[j];
      assert a != b;
    }
  }

  /** Every match appears once in the list; matches updated at the same time
      keep their store order. */
  lemma ListMatchesOrder(s: Store, me: UserId, t: int)
    ensures multiset(ListMatches(s, me)) == multiset(MyCards(s, me))
    ensures WithKey(ListMatches(s, me), Recency, t) == WithKey(MyCards(s, me), Recency, t)
  {
    SortDescStable(MyCards(s, me), Recency, t);
  }

  /** `getMatchDetails`: the card of a match among whose stored members `me`
      is. */
  function MatchDetails(s: Store, id: MatchId, me: UserId): (r: Response<Card>)
    ensures r.Err? ==> r.failure == Forbidden
    ensures r.Ok? <==> id < |s.matches| && FindUser(Populate(s, s.matches[id].users), me, true).Some?
    ensures r.Ok? ==> r.value == CardOf(s, id, me)
  {
    if id >= |s.matches| then Err(Forbidden)
    else if FindUser(Populate(s, s.matches[id].users), me, true).None? then Err(Forbidden)
    else Ok(CardOf(s, id, me))
  }

  /** With every user stored under its id, details are granted exactly to
      stored members of the match, the other user is a stored member other
      than `me`, and the card is the one the list shows. */
  lemma DetailsForMembers(s: Store, id: MatchId, me: UserId)
    requires KeyedById(s)
    ensures var r := MatchDetails(s, id, me);
      && (r.Ok? <==> IsMember(s, id, me) && me in s.users)
      && (r.Ok? ==> r.value in ListMatches(s, me))
      && (r.Ok? && r.value.otherUser.Some? ==>
            var o := r.value.otherUser.value;
            o.id != me && o.id in s.matches[id].users && o.id in s.users && s.users[o.id] == o)
  {
    if id < |s.matches| {
      var ids := s.matches[id].users;
      var us := Populate(s, ids);
      if IsMember(s, id, me) && me in s.users {
        var i :| 0 <= i < |ids| && ids[i] == me;
        assert s.users[me] in us;
        assert FindUser(us, me, true).Some?;
      }
    }
  }

  /** Someone with no stored profile shares no interests: the card has no
      reasons and a zero count. */
  lemma NoProfileNoReasons(s: Store, id: MatchId, me: UserId)
    requires KeyedById(s) && id < |s.matches| && me !in s.users
    ensures CardOf(s, id, me).reasons == [] && CardOf(s, id, me).mutual.count == 0
  {
    var us := Populate(s, s.matches[id].users);
    assert FindUser(us, me, true).None?;
  }
}
