/** Likes, skips and match creation on reciprocal likes (the like and skip
    endpoints). Each operation maps a store to a new store and the reply. */
module Ledger {
  import opened Base
  import opened Models

  datatype LikeReply =
    | AlreadyLiked
    | Liked(matchCreated: bool, matchId: Option<MatchId>)

  /** Match `m` lists both users. */
  predicate Pairs(m: Match, a: UserId, b: UserId) {
    a in m.users && b in m.users
  }

  /** `Match.findOne({ users: { $all: [a, b] } })`: the first match, in
      insertion order, listing both users. */
  function FindPair(ms: seq<Match>, a: UserId, b: UserId): (r: Option<MatchId>)
    ensures r.Some? ==> r.value < |ms| && Pairs(ms[r.value], a, b)
    ensures r.Some? ==> forall i :: 0 <= i < r.value ==> !Pairs(ms[i], a, b)
    ensures r.None? <==> forall i :: 0 <= i < |ms| ==> !Pairs(ms[i], a, b)
  {
    if ms == [] then None
    else if Pairs(ms[0], a, b) then Some(0)
    else match FindPair(ms[1..], a, b)
      case None => None
      case Some(i) => Some(i + 1)
  }

  /** Replaces the `liked` list of a stored user. */
  function SetLiked(s: Store, id: UserId, liked: seq<UserId>): Store
    requires id in s.users
  {
    s.(users := s.users[id := s.users[id].(liked := liked)])
  }

  /** `likeUser`: `actor` likes `target` at time `now`. */
  function Like(s: Store, actor: UserId, target: UserId, now: int): (r: Step<LikeReply>)
    // Self-likes are refused and change nothing.
    ensures target == actor ==> r == Step(s, Err(BadRequest("Cannot like yourself")))
    // A repeated like is a no-op.
    ensures target != actor && actor in s.users && target in s.users[actor].liked
            ==> r == Step(s, Ok(AlreadyLiked))
    // Saving an actor that fails the schema's validators throws, and nothing is saved.
    ensures target != actor && actor in s.users && target !in s.users[actor].liked && !PassesValidation(s.users[actor])
            ==> r == Step(s, Err(Throws))
    // Matches are never removed or edited, at most one is appended.
    ensures s.matches <= r.store.matches && |r.store.matches| <= |s.matches| + 1
    ensures r.store.messages == s.messages && r.store.answers == s.answers
    // Only the actor's `liked` list can change.
    ensures r.store.users.Keys == s.users.Keys
    ensures forall id :: id in s.users && id != actor ==> r.store.users[id] == s.users[id]
    ensures actor in s.users ==> r.store.users[actor] == s.users[actor].(liked := r.store.users[actor].liked)
  {
    if target == actor then Step(s, Err(BadRequest("Cannot like yourself")))
    else if actor !in s.users then Step(s, Err(Throws))
    else if target in s.users[actor].liked then Step(s, Ok(AlreadyLiked))
    else if !PassesValidation(s.users[actor]) then Step(s, Err(Throws))
    else
      var s1 := SetLiked(s, actor, s.users[actor].liked + [target]);
      if target !in s1.users then
        // `target.liked` on a missing user throws after the actor was saved.
        Step(s1, Err(Throws))
      else if actor !in s1.users[target].liked then
        Step(s1, Ok(Liked(false, None)))
      else
        match FindPair(s1.matches, actor, target)
        case Some(id) => Step(s1, Ok(Liked(true, Some(id))))
        case None =>
          var m := Match([actor, target], "", now, now);
          Step(s1.(matches := s1.matches + [m]), Ok(Liked(true, Some(|s1.matches|))))
  }

  /** No two matches list the same two distinct users. */
  ghost predicate OneMatchPerPair(ms: seq<Match>) {
    forall i, j, a, b :: 0 <= i < j < |ms| && a != b && Pairs(ms[i], a, b) ==> !Pairs(ms[j], a, b)
  }

  /** A fresh like by an actor that passes validation appends the target
      exactly once to the actor's list; otherwise the save throws and the
      list is as it was. */
  lemma LikeAppendsOnce(s: Store, actor: UserId, target: UserId, now: int)
    requires target != actor && actor in s.users && target !in s.users[actor].liked
    ensures var r := Like(s, actor, target, now);
      && (PassesValidation(s.users[actor]) ==>
            && r.store.users[actor].liked == s.users[actor].liked + [target]
            && Count(r.store.users[actor].liked, target) == 1)
      && (!PassesValidation(s.users[actor]) ==>
            r.store.users[actor].liked == s.users[actor].liked && r.reply == Err(Throws))
  {
    CountAppend(s.users[actor].liked, [target], target);
  }

  /** The reply reports a match exactly when the like was reciprocal, and
      carries a match id exactly when it reports one; that match lists both
      users. */
  lemma LikeReportsReciprocity(s: Store, actor: UserId, target: UserId, now: int)
    requires target != actor && actor in s.users && target in s.users
    requires target !in s.users[actor].liked
    ensures var r := Like(s, actor, target, now);
      && (r.reply.Ok? <==> PassesValidation(s.users[actor]))
      && (r.reply.Ok? ==>
            && r.reply.value.Liked?
            && (r.reply.value.matchCreated <==> actor in s.users[target].liked)
            && (r.reply.value.matchId.Some? <==> r.reply.value.matchCreated)
            && (r.reply.value.matchId.Some? ==>
                  r.reply.value.matchId.value < |r.store.matches|
                  && Pairs(r.store.matches[r.reply.value.matchId.value], actor, target)))
  {
  }

  /** A match is appended only for a reciprocal like between users with no
      match yet; an existing match is reused. */
  lemma LikeCreatesOnlyNewPairs(s: Store, actor: UserId, target: UserId, now: int)
    ensures var r := Like(s, actor, target, now);
      |r.store.matches| > |s.matches| ==>
        && target != actor && actor in s.users && target in s.users
        && PassesValidation(s.users[actor])
        && actor in s.users[target].liked
        && FindPair(s.matches, actor, target).None?
        && r.store.matches == s.matches + [Match([actor, target], "", now, now)]
  {
  }

  /** Sequential likes never create a second match for a pair. */
  lemma LikeKeepsOneMatchPerPair(s: Store, actor: UserId, target: UserId, now: int)
    requires OneMatchPerPair(s.matches)
    ensures OneMatchPerPair(Like(s, actor, target, now).store.matches)
  {
    var r := Like(s, actor, target, now);
    if |r.store.matches| > |s.matches| {
      var ms := r.store.matches;
      var n := |s.matches|;
      forall i, j, a, b | 0 <= i < j < |ms| && a != b && Pairs(ms[i], a, b)
        ensures !Pairs(ms[j], a, b)
      {
        if j == n {
          assert ms[j].users == [actor, target];
          assert ms[i] == s.matches[i];
          assert !Pairs(s.matches[i], actor, target);
        } else {
          assert ms[i] == s.matches[i] && ms[j] == s.matches[j];
        }
      }
    }
  }

  /** The reciprocal-like scenario between two users that pass validation:
      A likes B, then B likes A. Exactly one match lists both, and liking
      again reports "already liked" and adds nothing. */
  lemma MutualLikeScenario(s: Store, a: UserId, b: UserId, t1: int, t2: int, t3: int)
    requires a != b && a in s.users && b in s.users
    requires PassesValidation(s.users[a]) && PassesValidation(s.users[b])
    requires b !in s.users[a].liked && a !in s.users[b].liked
    requires FindPair(s.matches, a, b).None?
    ensures var s1 := Like(s, a, b, t1);
            var s2 := Like(s1.store, b, a, t2);
            var s3 := Like(s2.store, a, b, t3);
      && s1.reply == Ok(Liked(false, None))
      && s1.store.matches == s.matches
      && s2.reply == Ok(Liked(true, Some(|s.matches|)))
      && s2.store.matches == s.matches + [Match([b, a], "", t2, t2)]
      && s3.reply == Ok(AlreadyLiked)
      && s3.store == s2.store
  {
  }

  /** Liking never puts a user in its own `liked` list. */
  lemma LikeNeverSelf(s: Store, actor: UserId, target: UserId, now: int)
    requires forall id :: id in s.users ==> id !in s.users[id].liked
    ensures var r := Like(s, actor, target, now);
      forall id :: id in r.store.users ==> id !in r.store.users[id].liked
  {
  }

  /** `skipUser`: record that `actor` passed on `target`. Self-skips are not
      refused. A new skip saves the actor, which throws when the actor fails
      the schema's validators; a repeated skip saves nothing. */
  function Skip(s: Store, actor: UserId, target: UserId): (r: Step<bool>)
    ensures actor !in s.users ==> r == Step(s, Err(Throws))
    ensures actor in s.users && target !in s.users[actor].skipped && !PassesValidation(s.users[actor])
            ==> r == Step(s, Err(Throws))
    ensures actor in s.users && (target in s.users[actor].skipped || PassesValidation(s.users[actor])) ==>
      && r.reply == Ok(true)
      && actor in r.store.users
      && target in r.store.users[actor].skipped
      && r.store.users[actor].liked == s.users[actor].liked
      && Count(r.store.users[actor].skipped, target)
         == (if target in s.users[actor].skipped then Count(s.users[actor].skipped, target) else 1)
    // A repeated skip saves nothing; a new one appends the target and changes
    // nothing else of the actor.
    ensures actor in s.users && target in s.users[actor].skipped ==> r == Step(s, Ok(true))
    ensures actor in s.users && target !in s.users[actor].skipped && PassesValidation(s.users[actor]) ==>
              r.store.users[actor] == s.users[actor].(skipped := s.users[actor].skipped + [target])
    ensures r.store.users.Keys == s.users.Keys
    ensures forall id :: id in s.users && id != actor ==> r.store.users[id] == s.users[id]
    ensures r.store.matches == s.matches && r.store.messages == s.messages && r.store.answers == s.answers
  {
    if actor !in s.users then Step(s, Err(Throws))
    else
      var me := s.users[actor];
      if target in me.skipped then Step(s, Ok(true))
      else if !PassesValidation(me) then Step(s, Err(Throws))
      else
        CountAppend(me.skipped, [target], target);
        Step(s.(users := s.users[actor := me.(skipped := me.skipped + [target])]), Ok(true))
  }

  /** Skipping twice is the same as skipping once. */
  lemma SkipIdempotent(s: Store, actor: UserId, target: UserId)
    ensures var once := Skip(s, actor, target);
      Skip(once.store, actor, target) == once
  {
  }

  /** Unlike likes, a self-skip is accepted and recorded, whenever the
      actor's save goes through. */
  lemma SkipSelfRecorded(s: Store, actor: UserId)
    requires actor in s.users
    ensures var r := Skip(s, actor, actor);
      && (actor in r.store.users[actor].skipped <==>
            actor in s.users[actor].skipped || PassesValidation(s.users[actor]))
      && (PassesValidation(s.users[actor]) ==> r.reply == Ok(true))
  {
  }
}
