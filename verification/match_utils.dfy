/** Mutual interests between two profiles: tag normalisation, an ordered
    intersection per category, the combined `shared` preview and the match
    "reasons" shown on match cards. */
module MatchUtils {
  import opened Base
  import opened Text
  import opened Models
  import opened Photos

  /** A tag as normalisation leaves it: non-empty, trimmed, lower-case. */
  predicate NormalTag(t: string) {
    t != "" && Trimmed(t) && LowerCase(t)
  }

  /** The tag a list entry becomes: a string is trimmed and lower-cased, any
      other value becomes ''. */
  function NormalizeEntry(v: Json): string {
    match v
    case Str(s) => ToLower(Trim(s))
    case _ => ""
  }

  /** Entry `v` contributes tag `t` to the normalised list: it is a string
      that is not blank and normalises to `t`. */
  predicate Yields(v: Json, t: string) {
    v.Str? && NormalizeEntry(v) != "" && NormalizeEntry(v) == t
  }

  lemma EntryNormal(v: Json)
    ensures NormalizeEntry(v) == "" || NormalTag(NormalizeEntry(v))
  {
    if v.Str? {
      ToLowerKeepsTrimmed(Trim(v.s));
    }
  }

  /** The `.map(...)` step: every entry as a tag, '' for the dropped ones. */
  function NormalizeEntries(items: seq<Json>): (r: seq<string>)
    ensures |r| == |items|
    ensures forall i :: 0 <= i < |items| ==> r[i] == NormalizeEntry(items[i])
  {
    seq(|items|, i requires 0 <= i < |items| => NormalizeEntry(items[i]))
  }

  /** The `.filter(Boolean)` step after the map: the non-empty tags of the
      entries, in entry order and with their multiplicity. */
  function NormalizeItems(items: seq<Json>): (r: seq<string>)
    ensures |r| <= |items|
    ensures forall i :: 0 <= i < |r| ==> NormalTag(r[i])
    ensures IsSubsequence(r, NormalizeEntries(items))
    ensures forall t :: t != "" ==> Count(r, t) == Count(NormalizeEntries(items), t)
  {
    if items == [] then []
    else
      var t := NormalizeEntry(items[0]);
      EntryNormal(items[0]);
      var rest := NormalizeItems(items[1..]);
      var e := NormalizeEntries(items);
      assert e[0] == t && e[1..] == NormalizeEntries(items[1..]);
      FilterStep(t, rest, e);
      if t == "" then rest
      else
        assert forall i :: 0 < i <= |rest| ==> ([t] + rest)[i] == rest[i - 1];
        [t] + rest
  }

  /** A string entry is dropped exactly when it is blank. */
  lemma DroppedIffBlank(s: string)
    ensures NormalizeEntry(Str(s)) == "" <==> Blank(s)
  {
  }

  lemma {:induction false} NormalizeItemsMembers(items: seq<Json>, u: string)
    ensures u in NormalizeItems(items) <==> exists v :: v in items && Yields(v, u)
  {
    if items != [] {
      var t := NormalizeEntry(items[0]);
      var rest := NormalizeItems(items[1..]);
      NormalizeItemsMembers(items[1..], u);
      var here := Yields(items[0], u);
      var later := exists v :: v in items[1..] && Yields(v, u);
      assert (exists v :: v in items && Yields(v, u)) <==> here || later by {
        if exists v :: v in items && Yields(v, u) {
          var v :| v in items && Yields(v, u);
          assert v == items[0] || v in items[1..];
        }
        if later {
          var v :| v in items[1..] && Yields(v, u);
          assert v in items;
        }
      }
      if t == "" {
        assert NormalizeItems(items) == rest;
        assert !here;
      } else {
        assert NormalizeItems(items) == [t] + rest;
        assert here <==> u == t;
      }
    }
  }

  /** `normalizeList(arr)`: the normalised, non-empty tags of an array, and
      nothing for any other value. */
  function NormalizeList(v: Json): (r: seq<string>)
    ensures !v.Arr? ==> r == []
    ensures forall i :: 0 <= i < |r| ==> NormalTag(r[i])
    ensures v.Arr? ==> forall t :: t in r <==> exists w :: w in v.items && Yields(w, t)
    ensures v.Arr? ==> IsSubsequence(r, NormalizeEntries(v.items))
    ensures v.Arr? ==> forall t :: t != "" ==> Count(r, t) == Count(NormalizeEntries(v.items), t)
  {
    if v.Arr? then
      assert forall t :: t in NormalizeItems(v.items) <==> exists w :: w in v.items && Yields(w, t) by {
        forall t { NormalizeItemsMembers(v.items, t); }
      }
      NormalizeItems(v.items)
    else []
  }

  /** A stored tag list as the array value the utility receives. */
  function StrArray(xs: seq<string>): (v: Json)
    ensures v.Arr? && |v.items| == |xs|
    ensures forall i :: 0 <= i < |xs| ==> v.items[i] == Str(xs[i])
  {
    Arr(seq(|xs|, i requires 0 <= i < |xs| => Str(xs[i])))
  }

  /** Normalising a list of tags that are already normal changes nothing. */
  lemma {:induction false} NormalizeNormal(xs: seq<string>)
    requires forall i :: 0 <= i < |xs| ==> NormalTag(xs[i])
    ensures NormalizeList(StrArray(xs)) == xs
  {
    if xs != [] {
      var items := StrArray(xs).items;
      assert items[1..] == StrArray(xs[1..]).items;
      NormalizeNormal(xs[1..]);
      NormalTagFixed(xs[0]);
    }
  }

  lemma NormalTagFixed(t: string)
    requires NormalTag(t)
    ensures ToLower(Trim(t)) == t
  {
    assert TrimStart(t) == t;
    assert TrimEnd(t) == t;
  }

  /** `a.filter((x) => setB.has(x))`. */
  function KeepIn(a: seq<string>, b: seq<string>): (r: seq<string>)
    ensures IsSubsequence(r, a)
    ensures forall x :: x in r <==> x in a && x in b
    ensures forall x :: Count(r, x) == (if x in b then Count(a, x) else 0)
  {
    if a == [] then []
    else
      var rest := KeepIn(a[1..], b);
      assert forall x :: x in a <==> x == a[0] || x in a[1..];
      if a[0] in b then
        assert ([a[0]] + rest)[1..] == rest;
        [a[0]] + rest
      else rest
  }

  /** `intersect(a, b)`: the entries of `a` that occur in `b`, with `a`'s order
      and multiplicity; nothing when either side is empty. */
  function Intersect(a: seq<string>, b: seq<string>): (r: seq<string>)
    ensures a == [] || b == [] ==> r == []
    ensures IsSubsequence(r, a)
    ensures forall x :: x in r <==> x in a && x in b
    ensures forall x :: Count(r, x) == (if x in b then Count(a, x) else 0)
  {
    if |a| == 0 || |b| == 0 then [] else KeepIn(a, b)
  }

  datatype Mutual = Mutual(musicGenres: seq<string>, hobbies: seq<string>,
                           passions: seq<string>, shared: seq<string>, count: nat)

  /** The normalised tags of one category of an optional profile. */
  function Tags(q: Option<Questions>, category: Questions -> seq<string>): (r: seq<string>)
    ensures q.None? ==> r == []
    ensures forall i :: 0 <= i < |r| ==> NormalTag(r[i])
  {
    if q.None? then [] else NormalizeList(StrArray(category(q.value)))
  }

  /** `user?.profileQuestions`: a missing user has no profile. */
  function ProfileOf(u: Option<User>): Option<Questions> {
    if u.Some? then Some(u.value.profileQuestions) else None
  }

  function MusicOf(q: Questions): seq<string> { q.musicGenres }
  function HobbiesOf(q: Questions): seq<string> { q.hobbies }
  function PassionsOf(q: Questions): seq<string> { q.passions }

  /** `computeMutualInterests(me, other)`; a missing profile has no tags. */
  function ComputeMutualInterests(mine: Option<Questions>, theirs: Option<Questions>): (m: Mutual)
    ensures m.musicGenres == Intersect(Tags(mine, MusicOf), Tags(theirs, MusicOf))
    ensures m.hobbies == Intersect(Tags(mine, HobbiesOf), Tags(theirs, HobbiesOf))
    ensures m.passions == Intersect(Tags(mine, PassionsOf), Tags(theirs, PassionsOf))
    ensures m.count == |m.musicGenres| + |m.hobbies| + |m.passions|
    ensures m.shared <= m.musicGenres + m.hobbies + m.passions
    ensures |m.shared| == if m.count < 6 then m.count else 6
    ensures mine.None? || theirs.None? ==> m.count == 0 && m.shared == []
  {
    var music := Intersect(Tags(mine, MusicOf), Tags(theirs, MusicOf));
    var hobbies := Intersect(Tags(mine, HobbiesOf), Tags(theirs, HobbiesOf));
    var passions := Intersect(Tags(mine, PassionsOf), Tags(theirs, PassionsOf));
    Mutual(music, hobbies, passions, Take(music + hobbies + passions, 6),
           |music| + |hobbies| + |passions|)
  }

  /** Every mutual tag is a normalised tag that both profiles list in that
      category, and every such tag is mutual. */
  lemma MutualMembership(mine: Option<Questions>, theirs: Option<Questions>, t: string)
    ensures var m := ComputeMutualInterests(mine, theirs);
      && (t in m.musicGenres <==> t in Tags(mine, MusicOf) && t in Tags(theirs, MusicOf))
      && (t in m.hobbies <==> t in Tags(mine, HobbiesOf) && t in Tags(theirs, HobbiesOf))
      && (t in m.passions <==> t in Tags(mine, PassionsOf) && t in Tags(theirs, PassionsOf))
  {
  }

  /** The categories hold the same tags whichever profile comes first; only
      order and multiplicity follow the first argument. */
  lemma MutualSymmetric(mine: Option<Questions>, theirs: Option<Questions>, t: string)
    ensures var m := ComputeMutualInterests(mine, theirs);
            var n := ComputeMutualInterests(theirs, mine);
      && (t in m.musicGenres <==> t in n.musicGenres)
      && (t in m.hobbies <==> t in n.hobbies)
      && (t in m.passions <==> t in n.passions)
  {
  }

  /** One reason line: a label followed by the category's first three tags,
      written so that the comma-list parser reads those tags back. */
  function ReasonLine(topic: string, tags: seq<string>): (r: string)
    ensures var lead := "Shared " + topic + ": ";
      && lead <= r
      && ((forall i :: 0 <= i < |tags| ==> NormalTag(tags[i]) && ',' !in tags[i]) ==>
            CommaList(r[|lead|..]) == Take(tags, 3))
  {
    var lead := "Shared " + topic + ": ";
    var r := lead + Join(Take(tags, 3), ", ");
    assert r[|lead|..] == Join(Take(tags, 3), ", ");
    ReasonTags(tags);
    r
  }

  lemma ReasonTags(tags: seq<string>)
    ensures (forall i :: 0 <= i < |tags| ==> NormalTag(tags[i]) && ',' !in tags[i]) ==>
              CommaList(Join(Take(tags, 3), ", ")) == Take(tags, 3)
  {
    if forall i :: 0 <= i < |tags| ==> NormalTag(tags[i]) && ',' !in tags[i] {
      var shown := Take(tags, 3);
      assert forall i :: 0 <= i < |shown| ==> shown[i] == tags[i];
      CommaListSpacedJoin(shown);
    }
  }

  /** The non-empty categories of `m`, labelled, in the order music, hobbies,
      passions. */
  function NonEmptyCategories(m: Mutual): (r: seq<(string, seq<string>)>)
    ensures |r| <= 3
    ensures forall i :: 0 <= i < |r| ==> r[i].1 != []
  {
    (if m.musicGenres != [] then [("music", m.musicGenres)] else [])
    + (if m.hobbies != [] then [("hobbies", m.hobbies)] else [])
    + (if m.passions != [] then [("passions", m.passions)] else [])
  }

  datatype MatchReasons = MatchReasons(reasons: seq<string>, mutual: Mutual)

  /** `computeMatchReasons(me, other)`: one line per non-empty category. */
  function ComputeMatchReasons(mine: Option<Questions>, theirs: Option<Questions>): (r: MatchReasons)
    ensures r.mutual == ComputeMutualInterests(mine, theirs)
    ensures |r.reasons| <= 3
    ensures r.reasons == [] <==> r.mutual.count == 0
  {
    var m := ComputeMutualInterests(mine, theirs);
    var reasons :=
      (if m.musicGenres != [] then [ReasonLine("music", m.musicGenres)] else [])
      + (if m.hobbies != [] then [ReasonLine("hobbies", m.hobbies)] else [])
      + (if m.passions != [] then [ReasonLine("passions", m.passions)] else []);
    MatchReasons(reasons, m)
  }

  /** `lines` are the reason lines of the labelled categories `cats`. */
  predicate Describes(lines: seq<string>, cats: seq<(string, seq<string>)>) {
    |lines| == |cats| && forall i :: 0 <= i < |cats| ==> lines[i] == ReasonLine(cats[i].0, cats[i].1)
  }

  lemma DescribesOne(topic: string, tags: seq<string>)
    ensures Describes(if tags != [] then [ReasonLine(topic, tags)] else [],
                      if tags != [] then [(topic, tags)] else [])
  {
  }

  lemma DescribesConcat(l1: seq<string>, c1: seq<(string, seq<string>)>,
                        l2: seq<string>, c2: seq<(string, seq<string>)>)
    requires Describes(l1, c1) && Describes(l2, c2)
    ensures Describes(l1 + l2, c1 + c2)
  {
    var l, c := l1 + l2, c1 + c2;
    forall i | 0 <= i < |c| ensures l[i] == ReasonLine(c[i].0, c[i].1) {
      if i < |c1| {
        assert l[i] == l1[i] && c[i] == c1[i];
      } else {
        assert l[i] == l2[i - |l1|] && c[i] == c2[i - |c1|];
      }
    }
  }

  /** There is exactly one reason per non-empty category, in the order music,
      hobbies, passions, each listing at most the category's first three
      tags. */
  lemma ReasonsPerCategory(mine: Option<Questions>, theirs: Option<Questions>)
    ensures var r := ComputeMatchReasons(mine, theirs);
      Describes(r.reasons, NonEmptyCategories(r.mutual))
  {
    var m := ComputeMutualInterests(mine, theirs);
    var l1 := if m.musicGenres != [] then [ReasonLine("music", m.musicGenres)] else [];
    var l2 := if m.hobbies != [] then [ReasonLine("hobbies", m.hobbies)] else [];
    var l3 := if m.passions != [] then [ReasonLine("passions", m.passions)] else [];
    var c1 := if m.musicGenres != [] then [("music", m.musicGenres)] else [];
    var c2 := if m.hobbies != [] then [("hobbies", m.hobbies)] else [];
    var c3 := if m.passions != [] then [("passions", m.passions)] else [];
    DescribesOne("music", m.musicGenres);
    DescribesOne("hobbies", m.hobbies);
    DescribesOne("passions", m.passions);
    DescribesConcat(l1, c1, l2, c2);
    DescribesConcat(l1 + l2, c1 + c2, l3, c3);
  }
}
