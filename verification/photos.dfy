/** Profile photo list edits: appending uploaded paths, removing one entry,
    keeping the legacy primary photo in step with the list, and the
    comma-separated list parser the profile endpoints accept. */
module Photos {
  import opened Base
  import opened Text
  import opened Models

  /** `uploadProfilePhotos`: the uploaded paths go after the existing photos,
      and an empty primary photo takes the first photo. A missing user makes
      the handler throw, and so does the save of a user that fails the
      schema's validators. */
  function UploadPhotos(me: Option<User>, paths: seq<string>): (r: Response<User>)
    ensures r.Err? <==> me.None? || !PassesValidation(me.value)
    ensures r.Err? ==> r.failure == Throws
    ensures r.Ok? ==> r.value.photos == me.value.photos + paths
    ensures r.Ok? ==> r.value == me.value.(photos := r.value.photos, photo := r.value.photo)
    ensures r.Ok? && HasPhoto(me.value.photo) ==> r.value.photo == me.value.photo
    ensures r.Ok? && !HasPhoto(me.value.photo) && r.value.photos != [] ==>
              r.value.photo == Some(r.value.photos[0])
    ensures r.Ok? && r.value.photos == [] ==> r.value.photo == me.value.photo
  {
    match me
    case None => Err(Throws)
    case Some(u) =>
      if !PassesValidation(u) then Err(Throws)
      else
        var photos := u.photos + paths;
        var photo := if !HasPhoto(u.photo) && |photos| > 0 then Some(photos[0]) else u.photo;
        Ok(u.(photos := photos, photo := photo))
  }

  /** Which photo a removal request names. `ByIndex(None)` is an `index`
      parameter that does not parse as an integer; an `index` parameter, when
      present, takes precedence over `path`. */
  datatype Selector = ByIndex(index: Option<int>) | ByPath(path: string) | NoSelector

  /** Position of the entry a selector picks: an in-range index, or the
      first occurrence of a non-empty path. */
  function Picked(photos: seq<string>, sel: Selector): (r: Option<nat>)
    ensures r.Some? ==> r.value < |photos|
    ensures sel.ByIndex? ==> (r.Some? <==> sel.index.Some? && 0 <= sel.index.value < |photos|)
    ensures sel.ByIndex? && r.Some? ==> r.value == sel.index.value
    ensures sel.ByPath? ==> (r.Some? <==> sel.path != "" && sel.path in photos)
    ensures sel.ByPath? && r.Some? ==> photos[r.value] == sel.path && sel.path !in photos[..r.value]
    ensures sel.NoSelector? ==> r.None?
  {
    match sel
    case ByIndex(i) => if i.Some? && 0 <= i.value < |photos| then Some(i.value as nat) else None
    case ByPath(p) => if p != "" then IndexOf(photos, p) else None
    case NoSelector => None
  }

  /** The primary photo after `removed` left the list and `photos` remain:
      a primary that was the removed entry moves to the new first photo (or
      null), and an empty primary is filled from the list. */
  function Resync(photo: Option<string>, removed: string, photos: seq<string>): (r: Option<string>)
    ensures photo == Some(removed) ==>
              r == (if photos != [] && photos[0] != "" then Some(photos[0]) else None)
    ensures photo != Some(removed) && !HasPhoto(photo) && photos != [] ==> r == Some(photos[0])
    ensures photo != Some(removed) && (HasPhoto(photo) || photos == []) ==> r == photo
  {
    if photo == Some(removed) then
      (if |photos| > 0 && photos[0] != "" then Some(photos[0]) else None)
    else if !HasPhoto(photo) && |photos| > 0 then Some(photos[0])
    else photo
  }

  /** `removeProfilePhoto`. A selector that picks nothing, or picks an empty
      entry, leaves the stored user as it was and saves nothing. A removal
      saves the user, which throws when the user fails the schema's
      validators. */
  function RemovePhoto(me: Option<User>, sel: Selector): (r: Response<User>)
    ensures me.None? <==> r == Err(NotFound("User not found"))
    ensures me.Some? ==>
      var k := Picked(me.value.photos, sel);
      (r.Err? <==> k.Some? && me.value.photos[k.value] != "" && !PassesValidation(me.value))
    ensures me.Some? && r.Err? ==> r.failure == Throws
    ensures r.Ok? ==> r.value == me.value.(photos := r.value.photos, photo := r.value.photo)
    ensures r.Ok? ==>
      var u := me.value;
      var k := Picked(u.photos, sel);
      if k.None? || u.photos[k.value] == "" then r.value == u
      else
        && r.value.photos == RemoveAt(u.photos, k.value)
        && multiset(r.value.photos) + multiset{u.photos[k.value]} == multiset(u.photos)
        && r.value.photo == Resync(u.photo, u.photos[k.value], r.value.photos)
  {
    match me
    case None => Err(NotFound("User not found"))
    case Some(u) =>
      match Picked(u.photos, sel)
      case None => Ok(u)
      case Some(k) =>
        var removed := u.photos[k];
        if removed == "" then Ok(u)
        else if !PassesValidation(u) then Err(Throws)
        else
          var photos := RemoveAt(u.photos, k);
          Ok(u.(photos := photos, photo := Resync(u.photo, removed, photos)))
  }

  /** The photo list holds no empty entries, and whenever it is non-empty
      the primary photo is set. */
  predicate InSync(u: User) {
    && (forall i :: 0 <= i < |u.photos| ==> u.photos[i] != "")
    && (u.photos != [] ==> HasPhoto(u.photo))
  }

  /** Uploading non-empty paths keeps the stored user in sync: the saved
      user when the upload succeeds, the unchanged one when it throws. */
  lemma UploadKeepsInSync(u: User, paths: seq<string>)
    requires InSync(u)
    requires forall i :: 0 <= i < |paths| ==> paths[i] != ""
    ensures var r := UploadPhotos(Some(u), paths);
      InSync(if r.Ok? then r.value else u)
  {
    var r := UploadPhotos(Some(u), paths);
    if r.Ok? {
      var v := r.value;
      forall i | 0 <= i < |v.photos| ensures v.photos[i] != "" {
        if i >= |u.photos| {
          assert v.photos[i] == paths[i - |u.photos|];
        }
      }
    }
  }

  /** Removing a photo keeps the stored user in sync: the saved user when
      the removal succeeds, the unchanged one when it throws. */
  lemma RemoveKeepsInSync(u: User, sel: Selector)
    requires InSync(u)
    ensures var r := RemovePhoto(Some(u), sel);
      InSync(if r.Ok? then r.value else u)
  {
    var r := RemovePhoto(Some(u), sel);
    var k := Picked(u.photos, sel);
    if r.Ok? && k.Some? && u.photos[k.value] != "" {
      var v := r.value;
      assert v.photos == RemoveAt(u.photos, k.value);
      forall i | 0 <= i < |v.photos| ensures v.photos[i] != "" {
        if i < k.value {
          assert v.photos[i] == u.photos[i];
        } else {
          assert v.photos[i] == u.photos[i + 1];
        }
      }
    }
  }

  /** Removing the photo just uploaded, by its index or by its path, gives
      back the previous list; both saves succeed exactly when the user passes
      validation. */
  lemma UploadThenRemove(u: User, p: string)
    ensures UploadPhotos(Some(u), [p]).Ok? <==> PassesValidation(u)
    ensures var r := UploadPhotos(Some(u), [p]);
      r.Ok? && p != "" ==>
        var back := RemovePhoto(Some(r.value), ByIndex(Some(|u.photos|)));
        back.Ok? && back.value.photos == u.photos
    ensures var r := UploadPhotos(Some(u), [p]);
      r.Ok? && p != "" && p !in u.photos ==>
        var back := RemovePhoto(Some(r.value), ByPath(p));
        back.Ok? && back.value.photos == u.photos
  {
    var r := UploadPhotos(Some(u), [p]);
    if r.Ok? && p != "" {
      var up := r.value;
      assert up.photos[|u.photos|] == p;
      assert RemoveAt(up.photos, |u.photos|) == u.photos;
      if p !in u.photos {
        var k := Picked(up.photos, ByPath(p));
        assert up.photos[..|u.photos|] == u.photos;
      }
    }
  }

  /** The `.map((s) => s.trim())` step: every piece trimmed, position by
      position. */
  function Trims(xs: seq<string>): (r: seq<string>)
    ensures |r| == |xs|
    ensures forall i :: 0 <= i < |xs| ==> r[i] == Trim(xs[i])
  {
    seq(|xs|, i requires 0 <= i < |xs| => Trim(xs[i]))
  }

  /** The `.filter(Boolean)` step after the trims: the pieces of a
      comma-separated string, trimmed, without empty ones, in piece order and
      with their multiplicity. */
  function TrimPieces(xs: seq<string>): (r: seq<string>)
    ensures |r| <= |xs|
    ensures forall i :: 0 <= i < |r| ==> r[i] != "" && Trimmed(r[i])
    ensures IsSubsequence(r, Trims(xs))
    ensures forall t :: t != "" ==> Count(r, t) == Count(Trims(xs), t)
  {
    if xs == [] then []
    else
      var t := Trim(xs[0]);
      var rest := TrimPieces(xs[1..]);
      var e := Trims(xs);
      assert e[0] == t && e[1..] == Trims(xs[1..]);
      FilterStep(t, rest, e);
      if t == "" then rest
      else
        assert forall i :: 0 < i <= |rest| ==> ([t] + rest)[i] == rest[i - 1];
        [t] + rest
  }

  /** Trimming and dropping pieces introduces no character that no piece had. */
  lemma {:induction false} TrimPiecesFree(xs: seq<string>, d: char)
    requires forall i :: 0 <= i < |xs| ==> d !in xs[i]
    ensures forall i :: 0 <= i < |TrimPieces(xs)| ==> d !in TrimPieces(xs)[i]
  {
    if xs != [] {
      TrimPiecesFree(xs[1..], d);
      if d in Trim(xs[0]) {
        TrimKeepsChars(xs[0], d);
      }
    }
  }

  /** `s.split(',').map((s) => s.trim()).filter(Boolean)`. */
  function CommaList(s: string): (r: seq<string>)
    ensures forall i :: 0 <= i < |r| ==> r[i] != "" && Trimmed(r[i]) && ',' !in r[i]
    ensures IsSubsequence(r, Trims(Split(s, ',')))
    ensures forall t :: t != "" ==> Count(r, t) == Count(Trims(Split(s, ',')), t)
  {
    TrimPiecesFree(Split(s, ','), ',');
    TrimPieces(Split(s, ','))
  }

  /** A blank piece before the first tag is dropped: `",Rock"` parses to
      `["Rock"]`. */
  lemma {:induction false} CommaListLeadingBlank()
    ensures CommaList(",Rock") == ["Rock"]
  {
    LeadingBlankPieces();
    LeadingBlankTrims();
  }

  lemma {:induction false} LeadingBlankPieces()
    ensures Split(",Rock", ',') == ["", "Rock"]
  {
    SplitOf(["", "Rock"], ",Rock");
  }

  lemma {:induction false} LeadingBlankTrims()
    ensures TrimPieces(["", "Rock"]) == ["Rock"]
  {
    TrimPiecesStep("Rock", []);
    assert ["Rock"] + [] == ["Rock"];
    TrimPiecesStep("", ["Rock"]);
    assert [""] + ["Rock"] == ["", "Rock"];
  }

  /** A blank piece between two tags is dropped: `"rock,,pop"` parses to
      `["rock", "pop"]`. */
  lemma {:induction false} CommaListInnerBlank()
    ensures CommaList("rock,,pop") == ["rock", "pop"]
  {
    InnerBlankPieces();
    InnerBlankTrims();
  }

  lemma {:induction false} InnerBlankPieces()
    ensures Split("rock,,pop", ',') == ["rock", "", "pop"]
  {
    SplitOf(["rock", "", "pop"], "rock,,pop");
  }

  lemma {:induction false} InnerBlankTrims()
    ensures TrimPieces(["rock", "", "pop"]) == ["rock", "pop"]
  {
    InnerBlankTail();
    TrimPiecesStep("rock", ["", "pop"]);
    assert ["rock"] + ["", "pop"] == ["rock", "", "pop"];
  }

  lemma {:induction false} InnerBlankTail()
    ensures TrimPieces(["", "pop"]) == ["pop"]
  {
    TrimPiecesStep("pop", []);
    assert ["pop"] + [] == ["pop"];
    TrimPiecesStep("", ["pop"]);
    assert [""] + ["pop"] == ["", "pop"];
  }

  /** The split of a comma-join of comma-free pieces. */
  lemma {:induction false} SplitOf(xs: seq<string>, s: string)
    requires |xs| >= 1 && forall i :: 0 <= i < |xs| ==> ',' !in xs[i]
    requires Join(xs, ",") == s
    ensures Split(s, ',') == xs
  {
    assert "," == [','];
    SplitJoin(xs, ',');
  }

  /** One piece of `TrimPieces`: a piece trimming to nothing is dropped, and
      a non-empty trimmed piece is kept. */
  lemma {:induction false} TrimPiecesStep(x: string, xs: seq<string>)
    requires x == "" || Trimmed(x)
    ensures x == "" ==> TrimPieces([x] + xs) == TrimPieces(xs)
    ensures x != "" ==> TrimPieces([x] + xs) == [x] + TrimPieces(xs)
  {
    assert ([x] + xs)[1..] == xs;
    if x != "" {
      TrimTrimmed(x);
    }
  }

  lemma {:induction false} TrimPiecesFixed(xs: seq<string>)
    requires forall i :: 0 <= i < |xs| ==> xs[i] != "" && Trimmed(xs[i])
    ensures TrimPieces(xs) == xs
  {
    if xs != [] {
      TrimTrimmed(xs[0]);
      TrimPiecesFixed(xs[1..]);
      assert [xs[0]] + xs[1..] == xs;
    }
  }

  /** Joining tags with commas and parsing the result gives the tags back,
      provided they are non-empty, trimmed and comma-free; these are exactly
      the lists the parser produces. */
  lemma CommaListJoin(xs: seq<string>)
    requires forall i :: 0 <= i < |xs| ==> xs[i] != "" && Trimmed(xs[i]) && ',' !in xs[i]
    ensures CommaList(Join(xs, ",")) == xs
  {
    if xs == [] {
      assert Split("", ',') == [""];
      assert Trim("") == "";
    } else {
      assert "," == [','];
      SplitJoin(xs, ',');
      TrimPiecesFixed(xs);
    }
  }

  /** Pieces that each trim to a non-empty tag give exactly those tags. */
  lemma {:induction false} TrimPiecesEach(ps: seq<string>, xs: seq<string>)
    requires |ps| == |xs|
    requires forall i :: 0 <= i < |ps| ==> xs[i] != "" && Trim(ps[i]) == xs[i]
    ensures TrimPieces(ps) == xs
  {
    if ps != [] {
      TrimPiecesEach(ps[1..], xs[1..]);
      assert [xs[0]] + xs[1..] == xs;
    }
  }

  /** Tags joined with ", " parse back too: the space after each comma is
      trimmed away. */
  lemma CommaListSpacedJoin(xs: seq<string>)
    requires forall i :: 0 <= i < |xs| ==> xs[i] != "" && Trimmed(xs[i]) && ',' !in xs[i]
    ensures CommaList(Join(xs, ", ")) == xs
  {
    if xs == [] {
      assert Split("", ',') == [""];
      assert Trim("") == "";
    } else {
      var ps := [xs[0]] + Spaced(xs[1..]);
      CommaSpaceJoin(xs);
      assert "," == [','];
      SpacedPieces(xs);
      SplitJoin(ps, ',');
      TrimPiecesEach(ps, xs);
    }
  }

  lemma SpacedPieces(xs: seq<string>)
    requires xs != []
    requires forall i :: 0 <= i < |xs| ==> xs[i] != "" && Trimmed(xs[i]) && ',' !in xs[i]
    ensures var ps := [xs[0]] + Spaced(xs[1..]);
      && |ps| == |xs|
      && forall i :: 0 <= i < |ps| ==> ',' !in ps[i] && Trim(ps[i]) == xs[i]
  {
    var ps := [xs[0]] + Spaced(xs[1..]);
    forall i | 0 <= i < |ps| ensures ',' !in ps[i] && Trim(ps[i]) == xs[i] {
      if i == 0 {
        TrimTrimmed(xs[0]);
      } else {
        assert ps[i] == " " + xs[i];
        TrimLeadingSpace(xs[i]);
      }
    }
  }

  /** Parsing is idempotent: re-joining and re-parsing a parsed list changes
      nothing. */
  lemma CommaListCanonical(s: string)
    ensures CommaList(Join(CommaList(s), ",")) == CommaList(s)
  {
    CommaListJoin(CommaList(s));
  }

  /** `toArray`: falsy values give no tags, an array is kept as it is, a
      string is parsed as a comma list, and anything else gives no tags. */
  function ToArray(v: Json): (r: seq<Json>)
    ensures !Truthy(v) ==> r == []
    ensures v.Arr? ==> r == v.items
    ensures v.Str? ==> |r| == |CommaList(v.s)|
    ensures v.Str? ==> forall i :: 0 <= i < |r| ==> r[i] == Str(CommaList(v.s)[i])
    ensures v.Num? || v.Bool? ==> r == []
  {
    match v
    case Arr(items) => items
    case Str(s) =>
      var ts := CommaList(s);
      seq(|ts|, i requires 0 <= i < |ts| => Str(ts[i]))
    case _ => []
  }

  /** Every tag parsed from a string is a non-empty, trimmed, comma-free
      string. */
  lemma ToArrayStrings(s: string)
    ensures forall v :: v in ToArray(Str(s)) ==> v.Str? && v.s != "" && Trimmed(v.s) && ',' !in v.s
  {
    var r := ToArray(Str(s));
    forall v | v in r ensures v.Str? && v.s != "" && Trimmed(v.s) && ',' !in v.s {
      var i :| 0 <= i < |r| && r[i] == v;
      assert v == Str(CommaList(s)[i]);
    }
  }
}
