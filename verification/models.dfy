/** The persisted documents: users, matches, messages with their reactions,
    and daily prompt answers, with the field domains, defaults and required
    fields their schemas declare. The store holds matches and messages in
    insertion order; an id is a position in that order. */
module Models {
  import opened Base
  import opened Text

  type UserId = string
  type MatchId = nat
  type MessageId = nat

  datatype Gender = Male | Female | NonBinary | OtherGender

  const AllGenders: seq<Gender> := [Male, Female, NonBinary, OtherGender]

  function GenderName(g: Gender): string {
    match g
    case Male => "male"
    case Female => "female"
    case NonBinary => "non-binary"
    case OtherGender => "other"
  }

  /** The schema's enum check for a gender string. */
  function ParseGender(s: string): (r: Option<Gender>)
    ensures r.Some? ==> GenderName(r.value) == s
    ensures (exists g :: GenderName(g) == s) ==> r.Some?
  {
    if s == "male" then Some(Male)
    else if s == "female" then Some(Female)
    else if s == "non-binary" then Some(NonBinary)
    else if s == "other" then Some(OtherGender)
    else None
  }

  datatype Intent = Serious | Casual | Friends

  function IntentName(i: Intent): string {
    match i
    case Serious => "serious"
    case Casual => "casual"
    case Friends => "friends"
  }

  function ParseIntent(s: string): (r: Option<Intent>)
    ensures r.Some? ==> IntentName(r.value) == s
    ensures (exists i :: IntentName(i) == s) ==> r.Some?
  {
    if s == "serious" then Some(Serious)
    else if s == "casual" then Some(Casual)
    else if s == "friends" then Some(Friends)
    else None
  }

  datatype ReactionKind = Love | Like | Funny

  function ReactionName(k: ReactionKind): string {
    match k
    case Love => "love"
    case Like => "like"
    case Funny => "funny"
  }

  /** The `['love', 'like', 'funny'].includes(type)` check. */
  function ParseReaction(s: string): (r: Option<ReactionKind>)
    ensures r.Some? ==> ReactionName(r.value) == s
    ensures (exists k :: ReactionName(k) == s) ==> r.Some?
  {
    if s == "love" then Some(Love)
    else if s == "like" then Some(Like)
    else if s == "funny" then Some(Funny)
    else None
  }

  /** Onboarding answers: tag lists and free text. */
  datatype Questions = Questions(musicGenres: seq<string>, hobbies: seq<string>,
                                 passions: seq<string>, about: string)

  /** A user document. `photo` is the legacy primary photo; `None` is a
      stored null. The password hash is not modelled. */
  datatype User = User(
    id: UserId,
    name: string,
    email: string,
    age: int,
    bio: string,
    photo: Option<string>,
    photos: seq<string>,
    gender: Gender,
    intent: Intent,
    lookingFor: seq<Gender>,
    profileQuestions: Questions,
    profileComplete: bool,
    liked: seq<UserId>,
    skipped: seq<UserId>,
    createdAt: int)

  /** JavaScript truthiness of the primary photo: null and '' are falsy. */
  predicate HasPhoto(photo: Option<string>) {
    photo.Some? && photo.value != ""
  }

  /** The schema's validators, which `save()` runs on every path of a loaded
      document and not only on the modified ones: a required (non-empty) name
      and e-mail, and an age of at least 18. A profile update writes without
      validators, so a stored user can fail them, and then any later save of
      that user throws. */
  predicate PassesValidation(u: User) {
    u.name != "" && u.email != "" && u.age >= 18
  }

  /** A user as creation leaves it: it passes the validators, and the trim
      and lower-case casts have been applied. */
  predicate ValidUser(u: User) {
    && PassesValidation(u)
    && Trimmed(u.name) && Trimmed(u.email) && LowerCase(u.email)
  }

  /** Creates a user document as the schema does: casts (trim, lower-case),
      required-field and minimum checks, then defaults for every other field.
      A document failing validation makes the creation throw; the
      registration handler catches that and answers with its own 500. */
  function CreateUser(id: UserId, name: string, email: string, age: int, createdAt: int)
    : (r: Response<User>)
    ensures r.Ok? <==> !Blank(name) && !Blank(email) && age >= 18
    ensures r.Ok? ==> ValidUser(r.value) && r.value.id == id && r.value.age == age
    ensures r.Ok? ==> r.value.name == Trim(name)
    ensures r.Ok? ==> && r.value.bio == "" && r.value.photo == Some("") && r.value.photos == []
                      && r.value.gender == OtherGender && r.value.intent == Friends
                      && r.value.lookingFor == AllGenders
                      && r.value.profileQuestions == Questions([], [], [], "")
                      && !r.value.profileComplete
                      && r.value.liked == [] && r.value.skipped == []
    ensures r.Err? ==> r.failure == Throws
  {
    var n := Trim(name);
    var e := ToLower(Trim(email));
    ToLowerKeepsTrimmed(Trim(email));
    if n == "" || e == "" || age < 18 then Err(Throws)
    else Ok(User(id, n, e, age, "", Some(""), [], OtherGender, Friends, AllGenders,
                 Questions([], [], [], ""), false, [], [], createdAt))
  }

  /** A match document: its member ids, the last message preview and its
      timestamps. */
  datatype Match = Match(users: seq<UserId>, lastMessage: string, createdAt: int, updatedAt: int)

  datatype Reaction = Reaction(user: UserId, kind: ReactionKind, createdAt: int)

  datatype Message = Message(
    matchId: MatchId,
    sender: UserId,
    recipient: UserId,
    content: string,
    reactions: seq<Reaction>,
    createdAt: int)

  /** What the message schema enforces: content is stored trimmed and must be
      non-empty. References and reaction kinds are required by construction. */
  predicate ValidMessage(m: Message) {
    m.content != "" && Trimmed(m.content)
  }

  /** The whole database: users by id, matches and messages in insertion
      order, and daily prompt answers keyed by (user, date). */
  datatype Store = Store(
    users: map<UserId, User>,
    matches: seq<Match>,
    messages: seq<Message>,
    answers: map<(UserId, string), string>)

  /** Every user document is stored under its own id. */
  predicate KeyedById(s: Store) {
    forall id :: id in s.users ==> s.users[id].id == id
  }

  /** What a handler leaves behind: the store after it ran and its reply. */
  datatype Step<+T> = Step(store: Store, reply: Response<T>)

  function FindMatch(s: Store, id: MatchId): (r: Option<Match>)
    ensures r.Some? <==> id < |s.matches|
    ensures r.Some? ==> r.value == s.matches[id]
  {
    if id < |s.matches| then Some(s.matches[id]) else None
  }

  function FindMessage(s: Store, id: MessageId): (r: Option<Message>)
    ensures r.Some? <==> id < |s.messages|
    ensures r.Some? ==> r.value == s.messages[id]
  {
    if id < |s.messages| then Some(s.messages[id]) else None
  }

  /** The membership test every chat endpoint applies: the match exists and
      lists the user. */
  predicate IsMember(s: Store, matchId: MatchId, user: UserId) {
    matchId < |s.matches| && user in s.matches[matchId].users
  }

  /** `match.users.find((id) => String(id) !== me)`: the first member that is
      not `me`. */
  function OtherMember(users: seq<UserId>, me: UserId): (r: Option<UserId>)
    ensures r.Some? ==> r.value in users && r.value != me
    ensures r.None? <==> forall i :: 0 <= i < |users| ==> users[i] == me
  {
    if users == [] then None
    else if users[0] != me then Some(users[0])
    else OtherMember(users[1..], me)
  }

  /** Every stored message satisfies its schema. */
  predicate ValidMessages(s: Store) {
    forall i :: 0 <= i < |s.messages| ==> ValidMessage(s.messages[i])
  }
}
