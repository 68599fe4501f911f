/** Conversation starters: lines tailored to the interests two members
    share, followed by generic lines, without repeats and at most six. */
module Starters {
  import opened Base
  import opened Models
  import opened MatchUtils

  const Generic: seq<string> := [
    "What's something fun you did recently?",
    "Two truths and a lie? I'll go first if you want.",
    "What are you oddly good at?",
    "Favorite way to spend a Sunday?",
    "What's your go-to comfort food?"
  ]

  const MaxStarters := 6

  /** Two lines on the first shared music genre, two on the first shared
      hobby, one on the first shared passion; a category with nothing shared
      contributes nothing. */
  function Tailored(m: Mutual): (r: seq<string>)
    ensures |r| == (if m.musicGenres != [] then 2 else 0) + (if m.hobbies != [] then 2 else 0)
                   + (if m.passions != [] then 1 else 0)
    ensures m.musicGenres != [] ==>
              r[..2] == ["What " + m.musicGenres[0] + " track never gets old for you?",
                         "Seen any great " + m.musicGenres[0] + " concerts lately?"]
    ensures m.hobbies != [] ==>
              var h := if m.musicGenres != [] then 2 else 0;
              r[h..h + 2] == ["What's your favorite way to do " + m.hobbies[0] + " around here?",
                              "How did you get into " + m.hobbies[0] + "?"]
    ensures m.passions != [] ==> r[|r| - 1] == "What do you love most about " + m.passions[0] + "?"
  {
    (if m.musicGenres != [] then
       var g := m.musicGenres[0];
       ["What " + g + " track never gets old for you?", "Seen any great " + g + " concerts lately?"]
     else [])
    + (if m.hobbies != [] then
         var h := m.hobbies[0];
         ["What's your favorite way to do " + h + " around here?", "How did you get into " + h + "?"]
       else [])
    + (if m.passions != [] then ["What do you love most about " + m.passions[0] + "?"] else [])
  }

  /** `Array.from(new Set(xs))`: each value once, at its first occurrence. */
  function Dedup(xs: seq<string>): (r: seq<string>)
    ensures NoDuplicates(r)
    ensures forall x :: x in r <==> x in xs
    ensures |r| <= |xs|
  {
    if xs == [] then []
    else
      var n := |xs| - 1;
      var init := Dedup(xs[..n]);
      assert forall y :: y in xs <==> y in xs[..n] || y == xs[n] by {
        assert xs == xs[..n] + [xs[n]];
      }
      if xs[n] in init then init else init + [xs[n]]
  }

  /** De-duplicating a longer sequence extends the result for a prefix. */
  lemma {:induction false} DedupPrefix(a: seq<string>, b: seq<string>)
    ensures Dedup(a) <= Dedup(a + b)
    decreases |b|
  {
    if b == [] {
      assert a + b == a;
    } else {
      var m := |b| - 1;
      DedupPrefix(a, b[..m]);
      assert (a + b)[..|a + b| - 1] == a + b[..m];
    }
  }

  /** A sequence without repeats is its own de-duplication. */
  lemma {:induction false} DedupDistinct(xs: seq<string>)
    requires NoDuplicates(xs)
    ensures Dedup(xs) == xs
  {
    if xs != [] {
      var n := |xs| - 1;
      DedupDistinct(xs[..n]);
      assert xs[n] !in xs[..n];
      assert xs[..n] + [xs[n]] == xs;
    }
  }

  /** Position of the first occurrence of a value that occurs. */
  function First(xs: seq<string>, x: string): nat
    requires x in xs
  {
    IndexOf(xs, x).value
  }

  lemma FirstInPrefix(a: seq<string>, b: seq<string>, x: string)
    requires x in a
    ensures First(a + b, x) == First(a, x)
  {
    var i := First(a, x);
    assert (a + b)[i] == x && (a + b)[..i] == a[..i];
  }

  /** A value first occurring at the end of `xs` occurs there first. */
  lemma FirstAtEnd(xs: seq<string>)
    requires xs != [] && xs[|xs| - 1] !in xs[..|xs| - 1]
    ensures First(xs, xs[|xs| - 1]) == |xs| - 1
  {
  }

  /** Values keep the order of their first occurrences. */
  lemma {:induction false} DedupOrder(xs: seq<string>)
    ensures forall i, j :: 0 <= i < j < |Dedup(xs)| ==>
              && Dedup(xs)[i] in xs && Dedup(xs)[j] in xs
              && First(xs, Dedup(xs)[i]) < First(xs, Dedup(xs)[j])
  {
    var r := Dedup(xs);
    if xs != [] {
      var n := |xs| - 1;
      var pre := xs[..n];
      var init := Dedup(pre);
      DedupOrder(pre);
      assert xs == pre + [xs[n]];
      forall i | 0 <= i < |init| ensures First(xs, init[i]) == First(pre, init[i]) < n {
        FirstInPrefix(pre, [xs[n]], init[i]);
      }
      if xs[n] !in init {
        FirstAtEnd(xs);
      }
      forall i, j | 0 <= i < j < |r| ensures First(xs, r[i]) < First(xs, r[j]) {
        assert i < |init| && r[i] == init[i];
        if j < |init| {
          assert r[j] == init[j];
        } else {
          assert r[j] == xs[n] && First(xs, r[j]) == n;
        }
      }
    }
  }

  /** The starter list for some tailored lines: the first six of the
      distinct lines of the tailored and then the generic ones, so the list
      is topped up with the earliest generic lines not already used. */
  function Assemble(tailored: seq<string>): (r: seq<string>)
    ensures NoDuplicates(r) && |r| <= MaxStarters
    ensures forall x :: x in r ==> x in tailored || x in Generic
    ensures var n := |Dedup(tailored + Generic)|; |r| == if n < MaxStarters then n else MaxStarters
    ensures r <= Dedup(tailored + Generic)
  {
    var d := Dedup(tailored + Generic);
    var r := Take(d, MaxStarters);
    forall x | x in r ensures x in tailored || x in Generic {
      var k :| 0 <= k < |r| && r[k] == x;
      assert d[k] == x && x in d;
    }
    r
  }

  /** The interests the caller shares with the first other member of the
      match; a member without a stored user has no profile. */
  function PairMutual(s: Store, id: MatchId, me: UserId): (m: Mutual)
    requires id < |s.matches|
    ensures var other := OtherMember(s.matches[id].users, me);
      m == ComputeMutualInterests(
             if me in s.users then Some(s.users[me].profileQuestions) else None,
             if other.Some? && other.value in s.users then Some(s.users[other.value].profileQuestions) else None)
  {
    var other := OtherMember(s.matches[id].users, me);
    var mine := if me in s.users then Some(s.users[me]) else None;
    var theirs := if other.Some? && other.value in s.users then Some(s.users[other.value]) else None;
    ComputeMutualInterests(ProfileOf(mine), ProfileOf(theirs))
  }

  /** `getStarters`. With a match, the caller must be one of its members; the
      lines are tailored to the interests the caller shares with the first
      other member. Without a match only the generic lines are given. */
  function GetStarters(s: Store, matchId: Option<MatchId>, me: UserId): (r: Response<seq<string>>)
    ensures r.Err? <==> matchId.Some? && !IsMember(s, matchId.value, me)
    ensures r.Err? ==> r.failure == Forbidden
    ensures r.Ok? ==> NoDuplicates(r.value) && |r.value| <= MaxStarters
    ensures r.Ok? && matchId.Some? ==> r.value == Assemble(Tailored(PairMutual(s, matchId.value, me)))
    ensures matchId.None? ==> r == Ok(Assemble([]))
  {
    match matchId
    case None => Ok(Assemble([]))
    case Some(id) =>
      if !IsMember(s, id, me) then Err(Forbidden)
      else Ok(Assemble(Tailored(PairMutual(s, id, me))))
  }

  /** Without a match the starters are exactly the generic lines, in their
      declared order. */
  lemma GenericWithoutMatch(s: Store, me: UserId)
    ensures GetStarters(s, None, me) == Ok(Generic)
  {
    assert [] + Generic == Generic;
    DedupDistinct(Generic);
  }

  /** For a member, the starters open with the lines on the first music
      genre both members share, or else on the first shared hobby, or else
      on the first shared passion; every line after the tailored ones is a
      generic line. */
  lemma {:induction false} MemberStarters(s: Store, id: MatchId, me: UserId)
    requires IsMember(s, id, me)
    ensures var m := PairMutual(s, id, me);
            var r := GetStarters(s, Some(id), me).value;
            var t := Take(Dedup(Tailored(m)), MaxStarters);
      && t <= r
      && (forall k :: |t| <= k < |r| ==> r[k] in Generic && r[k] !in Tailored(m))
      && (m.musicGenres != [] ==> r != [] && r[0] == "What " + m.musicGenres[0] + " track never gets old for you?")
      && (m.musicGenres == [] && m.hobbies != [] ==>
            r != [] && r[0] == "What's your favorite way to do " + m.hobbies[0] + " around here?")
      && (m.musicGenres == [] && m.hobbies == [] && m.passions != [] ==>
            r != [] && r[0] == "What do you love most about " + m.passions[0] + "?")
      && (m.count == 0 ==> r == Generic)
  {
    var m := PairMutual(s, id, me);
    TailoredFirst(Tailored(m));
    StartersOpen(m);
  }

  /** Which line the starters open with, by the first non-empty category. */
  lemma {:induction false} StartersOpen(m: Mutual)
    ensures var r := Assemble(Tailored(m));
      && (m.musicGenres != [] ==> r != [] && r[0] == "What " + m.musicGenres[0] + " track never gets old for you?")
      && (m.musicGenres == [] && m.hobbies != [] ==>
            r != [] && r[0] == "What's your favorite way to do " + m.hobbies[0] + " around here?")
      && (m.musicGenres == [] && m.hobbies == [] && m.passions != [] ==>
            r != [] && r[0] == "What do you love most about " + m.passions[0] + "?")
      && (m.musicGenres == [] && m.hobbies == [] && m.passions == [] ==> r == Generic)
  {
    AssembleHead(Tailored(m));
  }

  /** The starters open with the first tailored line; without tailored lines
      they are the generic lines. */
  lemma {:induction false} AssembleHead(tailored: seq<string>)
    ensures tailored != [] ==> Assemble(tailored) != [] && Assemble(tailored)[0] == tailored[0]
    ensures tailored == [] ==> Assemble(tailored) == Generic
  {
    if tailored != [] {
      DedupHead(tailored + Generic);
    } else {
      assert [] + Generic == Generic;
      DedupDistinct(Generic);
    }
  }

  /** The first value of a sequence is the first value of its
      de-duplication. */
  lemma {:induction false} DedupHead(xs: seq<string>)
    requires xs != []
    ensures Dedup(xs) != [] && Dedup(xs)[0] == xs[0]
  {
    DedupPrefix([xs[0]], xs[1..]);
    assert [xs[0]] + xs[1..] == xs;
    assert Dedup([xs[0]]) == [xs[0]] by {
      assert [xs[0]][..0] == [];
    }
  }

  /** Tailored lines come first: the result begins with the distinct
      tailored lines (as many as fit), and every later line is a generic
      line that is not also a tailored one. The values appear in the order
      of their first occurrence. */
  lemma TailoredFirst(tailored: seq<string>)
    ensures var r := Assemble(tailored);
            var t := Take(Dedup(tailored), MaxStarters);
      && t <= r
      && (forall k :: |t| <= k < |r| ==> r[k] in Generic && r[k] !in tailored)
      && (forall i, j :: 0 <= i < j < |r| ==>
            First(tailored + Generic, r[i]) < First(tailored + Generic, r[j]))
  {
    var all := tailored + Generic;
    var d := Dedup(all);
    var dt := Dedup(tailored);
    DedupPrefix(tailored, Generic);
    DedupOrder(all);
    var r := Assemble(tailored);
    forall k | |Take(dt, MaxStarters)| <= k < |r| ensures r[k] in Generic && r[k] !in tailored {
      assert |dt| <= k && r[k] == d[k];
    }
  }
}
