/** The discovery feed: which users a requester is shown, one page at a
    time, each with the mutual interests computed against the requester. The
    users collection is given in its natural order; the start of the
    requester's local day is an input. */
module Discovery {
  import opened Base
  import opened Models
  import opened MatchUtils
  import opened Sorting

  /** Query parameters, already parsed. An absent `page` or `limit` is `None`;
      an absent `intent` or `stack` is the empty string. */
  datatype Query = Query(page: Option<int>, limit: Option<int>, intent: string, stack: string)

  datatype Candidate = Candidate(user: User, photos: seq<string>, mutual: Mutual)

  datatype Page = Page(page: int, limit: int, count: nat, users: seq<Candidate>)

  const DefaultPage := 1
  const DefaultLimit := 20

  /** `u` is already known to `me`: itself, liked or skipped. */
  predicate Excluded(me: User, u: User) {
    u.id == me.id || u.id in me.liked || u.id in me.skipped
  }

  /** The database filter of the feed query. */
  predicate Eligible(me: User, q: Query, midnight: int, u: User) {
    && !Excluded(me, u)
    && (|me.lookingFor| > 0 ==> u.gender in me.lookingFor)
    && (q.intent != "" ==> IntentName(u.intent) == q.intent)
    && (q.stack == "new-today" ==> u.createdAt >= midnight)
  }

  predicate DistinctIds(us: seq<User>) {
    forall i, j :: 0 <= i < j < |us| ==> us[i].id != us[j].id
  }

  /** The users matching the filter, in collection order. */
  function Eligibles(me: User, q: Query, midnight: int, all: seq<User>): (r: seq<User>)
    ensures forall u :: u in r <==> u in all && Eligible(me, q, midnight, u)
    ensures IsSubsequence(r, all)
    ensures DistinctIds(all) ==> DistinctIds(r)
  {
    if all == [] then []
    else
      var rest := Eligibles(me, q, midnight, all[1..]);
      assert forall u :: u in all <==> u == all[0] || u in all[1..];
      if Eligible(me, q, midnight, all[0]) then
        assert ([all[0]] + rest)[1..] == rest;
        assert DistinctIds(all) ==> forall u :: u in rest ==> u.id != all[0].id by {
          if DistinctIds(all) {
            forall u | u in rest ensures u.id != all[0].id {
              var k :| 0 <= k < |all[1..]| && all[1..][k] == u;
              assert all[k + 1] == u;
            }
          }
        }
        [all[0]] + rest
      else rest
  }

  /** `.skip(n).limit(l)`: a limit of 0 means no limit and a negative limit
      is taken by its absolute value. */
  function Window<T>(xs: seq<T>, skip: nat, limit: int): (r: seq<T>)
    ensures limit != 0 ==> |r| <= if limit < 0 then -limit else limit
    ensures skip <= |xs| ==> r <= xs[skip..]
    ensures skip >= |xs| ==> r == []
    ensures limit != 0 && skip <= |xs| ==>
              |r| == (if limit < 0 then -limit else limit) || r == xs[skip..]
    ensures limit == 0 && skip <= |xs| ==> r == xs[skip..]
  {
    if skip >= |xs| then []
    else if limit == 0 then xs[skip..]
    else
      var n := if limit < 0 then -limit else limit;
      if skip + n <= |xs| then xs[skip..skip + n] else xs[skip..]
  }

  /** The photo list the client is sent: the stored list, or the legacy
      primary photo alone, or nothing; never absent. */
  function ShownPhotos(u: User): (r: seq<string>)
    ensures |u.photos| > 0 ==> r == u.photos
    ensures |u.photos| == 0 && HasPhoto(u.photo) ==> r == [u.photo.value]
    ensures |u.photos| == 0 && !HasPhoto(u.photo) ==> r == []
  {
    if |u.photos| > 0 then u.photos
    else if HasPhoto(u.photo) then [u.photo.value]
    else []
  }

  /** The card of candidate `u`: the user, a photo list the client can always
      show, and the interests `u` shares with `me`, in `me`'s order. */
  function Enrich(me: User, u: User): (c: Candidate)
    ensures c.user == u
    ensures c.photos == [] <==> u.photos == [] && !HasPhoto(u.photo)
    ensures c.photos != [] ==> c.photos == u.photos || (HasPhoto(u.photo) && c.photos == [u.photo.value])
    ensures c.mutual == ComputeMutualInterests(Some(me.profileQuestions), Some(u.profileQuestions))
  {
    Candidate(u, ShownPhotos(u), ComputeMutualInterests(Some(me.profileQuestions), Some(u.profileQuestions)))
  }

  function EnrichAll(me: User, us: seq<User>): (r: seq<Candidate>)
    ensures |r| == |us|
    ensures forall i :: 0 <= i < |us| ==> r[i] == Enrich(me, us[i])
  {
    seq(|us|, i requires 0 <= i < |us| => Enrich(me, us[i]))
  }

  function MutualCount(c: Candidate): int { c.mutual.count }

  function Users(cs: seq<Candidate>): (r: seq<User>)
    ensures |r| == |cs|
    ensures forall i :: 0 <= i < |cs| ==> r[i] == cs[i].user
  {
    seq(|cs|, i requires 0 <= i < |cs| => cs[i].user)
  }

  /** What every card of a page satisfies: an eligible user of the
      collection, its client photo list, and its mutual interests with `me`. */
  predicate Shown(me: User, q: Query, midnight: int, all: seq<User>, c: Candidate) {
    && c.user in all && Eligible(me, q, midnight, c.user)
    && c.photos == ShownPhotos(c.user)
    && c.mutual == ComputeMutualInterests(Some(me.profileQuestions), Some(c.user.profileQuestions))
  }

  lemma EnrichedShown(me: User, q: Query, midnight: int, all: seq<User>, skip: nat, limit: int)
    ensures var found := Window(Eligibles(me, q, midnight, all), skip, limit);
      forall c :: c in EnrichAll(me, found) ==> Shown(me, q, midnight, all, c)
  {
    var e := Eligibles(me, q, midnight, all);
    var found := Window(e, skip, limit);
    var ef := EnrichAll(me, found);
    forall c | c in ef ensures Shown(me, q, midnight, all, c) {
      var i :| 0 <= i < |found| && ef[i] == c;
      assert found[i] == e[skip + i];
      assert found[i] in e;
    }
  }

  /** `discoverUsers`. A missing requester or a negative skip makes the query
      throw; otherwise a page is always returned. */
  function Discover(me: Option<User>, all: seq<User>, q: Query, midnight: int): (r: Response<Page>)
    ensures r.Ok? <==> me.Some? && PageSkip(q) >= 0
    ensures r.Err? ==> r.failure == Throws
    ensures r.Ok? ==> r.value.count == |r.value.users|
    ensures r.Ok? ==> r.value.page == q.page.GetOr(DefaultPage)
                      && r.value.limit == q.limit.GetOr(DefaultLimit)
    ensures r.Ok? && r.value.limit != 0 ==>
              |r.value.users| <= if r.value.limit < 0 then -r.value.limit else r.value.limit
    ensures r.Ok? && q.stack == "music-twins" ==> SortedDesc(r.value.users, MutualCount)
    ensures r.Ok? ==> && PageSkip(q) >= 0
                      && multiset(r.value.users) == multiset(EnrichAll(me.value, PageWindow(me.value, all, q, midnight)))
  {
    if me.None? then Err(Throws)
    else
      var page := q.page.GetOr(DefaultPage);
      var limit := q.limit.GetOr(DefaultLimit);
      var skip := PageSkip(q);
      if skip < 0 then Err(Throws)
      else
        var found := Window(Eligibles(me.value, q, midnight, all), skip, limit);
        var enriched := EnrichAll(me.value, found);
        var users := Arrange(q.stack, enriched);
        Ok(Page(page, limit, |users|, users))
  }

  /** The `music-twins` stack orders a page by non-increasing mutual count;
      every other stack keeps the collection order. */
  function Arrange(stack: string, cs: seq<Candidate>): (r: seq<Candidate>)
    ensures multiset(r) == multiset(cs) && |r| == |cs|
    ensures stack == "music-twins" ==> SortedDesc(r, MutualCount)
    ensures stack != "music-twins" ==> r == cs
  {
    if stack == "music-twins" then
      var r := SortDesc(cs, MutualCount);
      assert |r| == |multiset(r)| == |multiset(cs)| == |cs|;
      r
    else cs
  }

  /** How many eligible users precede the requested page. The skip is
      negative, and the query throws, exactly when a page before the first
      comes with a positive limit or a page after the first with a negative
      one; the first page skips nothing. */
  function PageSkip(q: Query): (n: int)
    ensures var p, l := q.page.GetOr(DefaultPage), q.limit.GetOr(DefaultLimit);
      n < 0 <==> (p < 1 && l > 0) || (p > 1 && l < 0)
    ensures q.page.GetOr(DefaultPage) == 1 || q.limit.GetOr(DefaultLimit) == 0 ==> n == 0
    ensures q.page.GetOr(DefaultPage) >= 1 && q.limit.GetOr(DefaultLimit) > 0 ==>
              n == (q.page.GetOr(DefaultPage) - 1) * q.limit.GetOr(DefaultLimit)
  {
    var p, l := q.page.GetOr(DefaultPage), q.limit.GetOr(DefaultLimit);
    ProductSign(p - 1, l);
    (p - 1) * l
  }

  /** The sign of a product. */
  lemma ProductSign(a: int, b: int)
    ensures a * b < 0 <==> (a < 0 && b > 0) || (a > 0 && b < 0)
    ensures a == 0 || b == 0 ==> a * b == 0
  {
    if a > 0 && b < 0 {
      assert a * b == -(a * -b);
    } else if a < 0 && b > 0 {
      assert a * b == -(-a * b);
    } else if a < 0 && b < 0 {
      assert a * b == -a * -b;
    }
  }

  /** The window of eligible users that a query's page covers. */
  function PageWindow(me: User, all: seq<User>, q: Query, midnight: int): seq<User>
  {
    if PageSkip(q) < 0 then [] else Window(Eligibles(me, q, midnight, all), PageSkip(q), q.limit.GetOr(DefaultLimit))
  }

  /** Without `music-twins` the page is the window of eligible users in
      collection order; with it, the same users reordered by non-increasing
      mutual count, ties kept in collection order. */
  lemma DiscoverPageContents(me: User, all: seq<User>, q: Query, midnight: int, k: int)
    requires PageSkip(q) >= 0
    ensures var r := Discover(Some(me), all, q, midnight).value;
            var w := EnrichAll(me, PageWindow(me, all, q, midnight));
      && (q.stack != "music-twins" ==> r.users == w)
      && (q.stack == "music-twins" ==>
            multiset(r.users) == multiset(w) && WithKey(r.users, MutualCount, k) == WithKey(w, MutualCount, k))
  {
    var w := EnrichAll(me, PageWindow(me, all, q, midnight));
    if q.stack == "music-twins" {
      SortDescStable(w, MutualCount, k);
    }
  }

  /** Every card of a page is an eligible user of the collection, with its
      client photo list and its mutual interests with the requester. */
  lemma DiscoverShown(me: User, all: seq<User>, q: Query, midnight: int)
    ensures var r := Discover(Some(me), all, q, midnight);
      r.Ok? ==> forall c :: c in r.value.users ==> Shown(me, q, midnight, all, c)
  {
    var r := Discover(Some(me), all, q, midnight);
    if r.Ok? {
      var found := PageWindow(me, all, q, midnight);
      EnrichedShown(me, q, midnight, all, PageSkip(q), q.limit.GetOr(DefaultLimit));
      EnrichedInclusion(EnrichAll(me, found), r.value.users);
    }
  }

  lemma EnrichedInclusion(cs: seq<Candidate>, rs: seq<Candidate>)
    requires multiset(rs) == multiset(cs)
    ensures forall c :: c in rs ==> c in cs
  {
    forall c | c in rs ensures c in cs {
      assert c in multiset(rs);
    }
  }

  /** Once `me` has skipped or liked `t`, no page shows `t`. */
  lemma KnownUsersNeverShown(me: User, all: seq<User>, q: Query, midnight: int, t: UserId)
    requires t == me.id || t in me.liked || t in me.skipped
    ensures var r := Discover(Some(me), all, q, midnight);
      r.Ok? ==> forall c :: c in r.value.users ==> c.user.id != t
  {
    DiscoverShown(me, all, q, midnight);
  }

  /** Two different pages of the same size share no user, provided user ids
      are distinct in the collection. */
  lemma PagesDisjoint(me: User, all: seq<User>, q1: Query, q2: Query, midnight: int)
    requires DistinctIds(all)
    requires q1.limit == q2.limit && q1.intent == q2.intent && q1.stack == q2.stack
    requires q1.limit.GetOr(DefaultLimit) > 0
    requires q1.page.GetOr(DefaultPage) != q2.page.GetOr(DefaultPage)
    ensures var r1 := Discover(Some(me), all, q1, midnight);
            var r2 := Discover(Some(me), all, q2, midnight);
      r1.Ok? && r2.Ok? ==>
        forall c1, c2 :: c1 in r1.value.users && c2 in r2.value.users ==> c1.user.id != c2.user.id
  {
    var r1 := Discover(Some(me), all, q1, midnight);
    var r2 := Discover(Some(me), all, q2, midnight);
    if r1.Ok? && r2.Ok? {
      var e := Eligibles(me, q1, midnight, all);
      EligiblesSameFilter(me, q1, q2, midnight, all);
      var limit := q1.limit.GetOr(DefaultLimit);
      PageUsersFromWindow(me, all, q1, midnight);
      PageUsersFromWindow(me, all, q2, midnight);
      PageStartsApart(q1, q2);
      WindowsDisjoint(e, PageSkip(q1), PageSkip(q2), limit);
    }
  }

  lemma PageStartsApart(q1: Query, q2: Query)
    requires q1.limit == q2.limit && q1.limit.GetOr(DefaultLimit) > 0
    requires q1.page.GetOr(DefaultPage) != q2.page.GetOr(DefaultPage)
    ensures var limit := q1.limit.GetOr(DefaultLimit);
      PageSkip(q1) + limit <= PageSkip(q2) || PageSkip(q2) + limit <= PageSkip(q1)
  {
    var limit := q1.limit.GetOr(DefaultLimit);
    var p1, p2 := q1.page.GetOr(DefaultPage), q2.page.GetOr(DefaultPage);
    var lo, hi := if p1 < p2 then p1 else p2, if p1 < p2 then p2 else p1;
    var d := hi - lo;
    assert (hi - 1) * limit == (lo - 1) * limit + d * limit;
    assert d * limit == (d - 1) * limit + limit;
    assert (d - 1) * limit >= 0;
  }

  lemma WindowsDisjoint(e: seq<User>, s1: int, s2: int, limit: int)
    requires DistinctIds(e) && limit > 0 && s1 >= 0 && s2 >= 0
    requires s1 + limit <= s2 || s2 + limit <= s1
    ensures forall u1, u2 :: u1 in Window(e, s1, limit) && u2 in Window(e, s2, limit) ==> u1.id != u2.id
  {
    var w1, w2 := Window(e, s1, limit), Window(e, s2, limit);
    forall u1, u2 | u1 in w1 && u2 in w2 ensures u1.id != u2.id {
      var i :| 0 <= i < |w1| && w1[i] == u1;
      var j :| 0 <= j < |w2| && w2[j] == u2;
      assert e[s1 + i] == u1 && e[s2 + j] == u2;
    }
  }

  /** A rearrangement of enriched users holds only cards of those users. */
  lemma EnrichedUsers(me: User, w: seq<User>, cs: seq<Candidate>)
    requires multiset(cs) == multiset(EnrichAll(me, w))
    ensures forall c :: c in cs ==> c.user in w
  {
    var ew := EnrichAll(me, w);
    forall c | c in cs ensures c.user in w {
      assert c in multiset(ew);
      var i :| 0 <= i < |ew| && ew[i] == c;
      assert c.user == w[i];
    }
  }

  /** Every card of a page comes from the page's window. */
  lemma PageUsersFromWindow(me: User, all: seq<User>, q: Query, midnight: int)
    ensures var r := Discover(Some(me), all, q, midnight);
      r.Ok? ==> && PageSkip(q) >= 0
                && forall c :: c in r.value.users ==>
                     c.user in Window(Eligibles(me, q, midnight, all), PageSkip(q), q.limit.GetOr(DefaultLimit))
  {
    var r := Discover(Some(me), all, q, midnight);
    if r.Ok? {
      EnrichedUsers(me, PageWindow(me, all, q, midnight), r.value.users);
    }
  }

  /** The filter reads only the intent and stack of the query. */
  lemma EligiblesSameFilter(me: User, q1: Query, q2: Query, midnight: int, all: seq<User>)
    requires q1.intent == q2.intent && q1.stack == q2.stack
    ensures Eligibles(me, q1, midnight, all) == Eligibles(me, q2, midnight, all)
  {
  }
}
