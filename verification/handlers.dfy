/** The request handlers of backend/index.js, each one step from the server
    state and the request to a response and the next state. The
    `authenticateToken` middleware is not part of this model: the protected
    handlers receive the `userId` it put on the request. A handler that only
    reads returns a `Response` alone. */
module Handlers {
  import opened Optional
  import opened Text
  import opened PathPosix
  import opened Tokens
  import opened Upload
  import opened Records
  import opened Queries

  // ----- responses -----

  /** The account fields the registration and login responses carry. */
  datatype UserView = UserView(fullName: string, email: string)

  /** Library errors that reach a `catch` (or Express's error handler); the
      message sent is the library's own text, named here by its cause. */
  datatype Fault =
    | CastFailure       // a malformed object id in a by-id lookup
    | InvalidDate       // a time value outside the Date range, or NaN
    | UnlinkFailure     // `unlinkSync` on a missing file or a directory
    | FileTypeRejected  // the upload filter's error, handed to Express

  datatype Body =
    | Failure(flagged: bool, message: string)  // `{error: true, message}`, or `{message}` when not flagged
    | Caught(fault: Fault)                     // `{error: true, message: error.message}`
    | Authenticated(user: UserView, accessToken: Token, message: string)
    | CurrentUser(account: User)
    | OneStory(story: Story, message: string)
    | Stories(stories: seq<Story>)
    | Done(message: string)
    | ImageUrl(imageUrl: string)
    | NoBody                                   // `sendStatus(401)`

  datatype Response = Response(status: nat, body: Body)

  /** A mutating handler's result: what it sends and the state it leaves. */
  datatype Step = Step(response: Response, db: Db)

  const AllFieldsRequired := "All fields are required."
  const UserAlreadyExists := "User already exists."
  const RegistrationSuccessful := "Registration successful."
  const CredentialsRequired := "Email and Password are required"
  const UserNotFound := "User not found"
  const InvalidPassword := "Invalid password"
  const LoginSuccessful := "Login successful"
  const AddedSuccessfully := "Added Successfully"
  const NoImageUploaded := "No image uploaded."
  const ImageUrlRequired := "imageUrl parameter is required."
  const ImageDeleted := "Image deleted Successfully"
  const ImageNotFound := "Image not found"
  const StoryNotFound := "Story not found"
  const UpdatedSuccessfully := "Updated Successfully"
  const StoryDeleted := "Story Deleted Successfully"
  const TravelStoryNotFound := "Travel Story not found"
  const QueryRequired := "Query parameter is required."

  /** The URL prefix under which the bundled assets are served. */
  const AssetsUrlPrefix := "http://localhost:8080/assets/"

  /** The placeholder picture among the assets. */
  const PlaceholderFile := "placeholder.jpeg"

  /** Where an edited story without an image points. */
  const PlaceholderImageUrl := AssetsUrlPrefix + PlaceholderFile

  /** The URL prefix under which uploads are served. */
  const UploadsUrlPrefix := "http://localhost:8080/uploads/"

  // ----- request values -----

  /** The password library: `hash` and `compare`, left uninterpreted. */
  datatype Crypto = Crypto(hash: string -> string, compare: (string, string) -> bool)

  /** A password library whose `compare` accepts the password a digest was
      made from. */
  ghost predicate Faithful(crypto: Crypto)
  {
    forall password :: crypto.compare(password, crypto.hash(password))
  }

  /** A `:id` route parameter: an object id, or a string that is not one
      (the store's cast of it throws). */
  datatype IdParam = ObjectId(id: Id) | Malformed

  /** The largest magnitude of a valid JavaScript time value, in ms. */
  const MaxTimeValue: int := 8640000000000000

  /** `new Date(ms)` is a valid date. */
  predicate ValidTime(ms: int)
  {
    -MaxTimeValue <= ms <= MaxTimeValue
  }

  /** From this magnitude on, JavaScript writes a number in exponent form
      ("1e+21"). */
  const ExponentFormBound: int := 1_000_000_000_000_000_000_000

  lemma ExponentFormBoundIsPow10()
    ensures Pow10(21) == ExponentFormBound
  {
    Pow10Add(5, 5);
    Pow10Add(10, 10);
    Pow10Add(20, 1);
  }

  /** `parseInt(v)` of a JSON number holding an integer: the number is first
      turned into a string, which is its decimal form below 10^21 in
      magnitude and an exponent form such as "1.5e+21" from there on, and the
      parse stops at the first character that is not a digit, keeping only
      the sign and the leading digit. */
  function ParseIntOfNumber(v: int): (t: int)
    ensures -ExponentFormBound < v < ExponentFormBound ==> t == v
    ensures v >= ExponentFormBound ==>
      1 <= t <= 9 && exists k: nat :: t * Pow10(k) <= v < (t + 1) * Pow10(k)
    ensures v <= -ExponentFormBound ==>
      -9 <= t <= -1 && exists k: nat :: -t * Pow10(k) <= -v < (-t + 1) * Pow10(k)
  {
    if -ExponentFormBound < v < ExponentFormBound then v
    else if v > 0 then LeadingDigit(v)
    else -(LeadingDigit(-v) as int)
  }

  /** 10^21 is written "1e+21", which `parseInt` reads as 1. */
  lemma ExponentFormBoundReadsAsOne()
    ensures ParseIntOfNumber(ExponentFormBound) == 1
  {
    LeadingDigitOfPower(21);
    ExponentFormBoundIsPow10();
  }

  /** A body field holding a number passes `!field` when present and not 0. */
  predicate Truthy(n: Option<int>)
  {
    n.Some? && n.value != 0
  }

  // ----- accounts -----

  /** POST /create-account. */
  function CreateAccount(db: Db, crypto: Crypto, nowMs: nat, fullName: string, email: string, password: string): (r: Step)
    ensures fullName == "" || email == "" || password == ""
            ==> r == Step(Response(400, Failure(true, AllFieldsRequired)), db)
    ensures fullName != "" && email != "" && password != "" && EmailTaken(db.users, email)
            ==> r == Step(Response(400, Failure(true, UserAlreadyExists)), db)
    ensures r.response.status == 201 <==> fullName != "" && email != "" && password != "" && !EmailTaken(db.users, email)
    ensures r.response.status != 201 ==> r.db == db
    ensures r.response.status == 201 ==>
      && r.db.users == db.users + [User(db.nextId, fullName, email, crypto.hash(password))]
      && r.db.stories == db.stories && r.db.uploads == db.uploads
      && r.db.nextId == db.nextId + 1
    ensures r.response.status == 201 ==>
      && r.response.body.Authenticated?
      && r.response.body.user == UserView(fullName, email)
      && r.response.body.accessToken == Sign(db.nextId, nowMs)
      && r.response.body.message == RegistrationSuccessful
  {
    if fullName == "" || email == "" || password == "" then
      Step(Response(400, Failure(true, AllFieldsRequired)), db)
    else if FindUserByEmail(db.users, email).Some? then
      Step(Response(400, Failure(true, UserAlreadyExists)), db)
    else
      var user := User(db.nextId, fullName, email, crypto.hash(password));
      Step(Response(201, Authenticated(UserView(fullName, email), Sign(user.id, nowMs), RegistrationSuccessful)),
           db.(users := db.users + [user], nextId := db.nextId + 1))
  }

  /** POST /login. Never changes the state. */
  function Login(db: Db, crypto: Crypto, nowMs: nat, email: string, password: string): (r: Response)
    ensures email == "" || password == "" ==> r == Response(400, Failure(false, CredentialsRequired))
    ensures email != "" && password != "" && !EmailTaken(db.users, email)
            ==> r == Response(400, Failure(false, UserNotFound))
    ensures r.status == 200 || r.status == 400
    ensures r.status == 200 ==>
      exists u :: u in db.users && u.email == email && crypto.compare(password, u.passwordHash)
        && r.body == Authenticated(UserView(u.fullName, u.email), Sign(u.id, nowMs), LoginSuccessful)
    ensures r.body == Failure(false, InvalidPassword) ==>
      exists u :: u in db.users && u.email == email && !crypto.compare(password, u.passwordHash)
  {
    if email == "" || password == "" then
      Response(400, Failure(false, CredentialsRequired))
    else
      match FindUserByEmail(db.users, email)
      case None => Response(400, Failure(false, UserNotFound))
      case Some(i) =>
        var user := db.users[i];
        if !crypto.compare(password, user.passwordHash) then
          Response(400, Failure(false, InvalidPassword))
        else
          Response(200, Authenticated(UserView(user.fullName, user.email), Sign(user.id, nowMs), LoginSuccessful))
  }

  /** GET /get-user, for the user id the token named. */
  function GetUser(db: Db, userId: Id): (r: Response)
    ensures r.status == 401 <==> !UserExists(db.users, userId)
    ensures r.status == 401 ==> r.body == NoBody
    ensures r.status != 401 ==>
      r.status == 200 && r.body.CurrentUser? && r.body.account in db.users && r.body.account.id == userId
  {
    match FindUserById(db.users, userId)
    case None => Response(401, NoBody)
    case Some(i) => Response(200, CurrentUser(db.users[i]))
  }

  // ----- stories -----

  /** POST /add-travel-story. The date is stored as `parseInt` reads it. */
  function AddStory(db: Db, userId: Id, title: string, story: string, visitedLocation: Option<seq<string>>,
                    imageUrl: string, visitedDate: Option<int>): (r: Step)
    ensures title == "" || story == "" || visitedLocation.None? || imageUrl == "" || !Truthy(visitedDate)
            ==> r == Step(Response(400, Failure(false, AllFieldsRequired)), db)
    ensures r.response.status == 201 <==>
      title != "" && story != "" && visitedLocation.Some? && imageUrl != "" && Truthy(visitedDate)
      && ValidTime(ParseIntOfNumber(visitedDate.value))
    ensures title != "" && story != "" && visitedLocation.Some? && imageUrl != "" && Truthy(visitedDate)
            && !ValidTime(ParseIntOfNumber(visitedDate.value))
            ==> r == Step(Response(400, Caught(InvalidDate)), db)
    ensures r.response.status != 201 ==> r.db == db
    ensures r.response.status == 201 ==>
      var s := Story(db.nextId, title, story, visitedLocation.value, false, userId, imageUrl,
                     ParseIntOfNumber(visitedDate.value));
      && r.db == db.(stories := db.stories + [s], nextId := db.nextId + 1)
      && r.response.body == OneStory(s, AddedSuccessfully)
  {
    if title == "" || story == "" || visitedLocation.None? || imageUrl == "" || !Truthy(visitedDate) then
      Step(Response(400, Failure(false, AllFieldsRequired)), db)
    else
      var date := ParseIntOfNumber(visitedDate.value);
      if !ValidTime(date) then
        Step(Response(400, Caught(InvalidDate)), db)
      else
        var s := Story(db.nextId, title, story, visitedLocation.value, false, userId, imageUrl, date);
        Step(Response(201, OneStory(s, AddedSuccessfully)), db.(stories := db.stories + [s], nextId := db.nextId + 1))
  }

  /** GET /get-all-stories: exactly the caller's stories, favorites first. */
  function ListStories(db: Db, userId: Id): (r: Response)
    ensures r.status == 200 && r.body.Stories?
    ensures forall x :: multiset(r.body.stories)[x] == if x.userId == userId then multiset(db.stories)[x] else 0
    ensures FavoritesFirst(r.body.stories)
  {
    Response(200, Stories(SortFavoritesFirst(StoriesOf(db.stories, userId))))
  }

  /** The story fields an edit writes; the image falls back to the
      placeholder when none is given. */
  function Edited(s: Story, title: string, story: string, visitedLocation: seq<string>, imageUrl: string,
                  visitedDate: int): (e: Story)
    ensures e.id == s.id && e.userId == s.userId && e.isFavorite == s.isFavorite
    ensures e.title == title && e.story == story && e.visitedLocation == visitedLocation
    ensures e.visitedDate == visitedDate
    ensures e.imageUrl != ""
    ensures imageUrl != "" ==> e.imageUrl == imageUrl
    ensures imageUrl == "" ==> e.imageUrl == PlaceholderImageUrl
  {
    s.(title := title, story := story, visitedLocation := visitedLocation,
       imageUrl := if imageUrl != "" then imageUrl else PlaceholderImageUrl, visitedDate := visitedDate)
  }

  /** PUT /edit-story/:id. The date is stored as `parseInt` reads it. */
  function EditStory(db: Db, userId: Id, id: IdParam, title: string, story: string,
                     visitedLocation: Option<seq<string>>, imageUrl: string, visitedDate: Option<int>): (r: Step)
    ensures title == "" || story == "" || visitedLocation.None? || !Truthy(visitedDate)
            ==> r == Step(Response(400, Failure(true, AllFieldsRequired)), db)
    ensures title != "" && story != "" && visitedLocation.Some? && Truthy(visitedDate)
            && id.ObjectId? && !OwnsStory(db.stories, id.id, userId)
            ==> r == Step(Response(400, Failure(true, StoryNotFound)), db)
    ensures title != "" && story != "" && visitedLocation.Some? && Truthy(visitedDate) && id.Malformed?
            ==> r == Step(Response(200, Caught(CastFailure)), db)
    ensures title != "" && story != "" && visitedLocation.Some? && Truthy(visitedDate) && !ValidTime(ParseIntOfNumber(visitedDate.value))
            && id.ObjectId? && OwnsStory(db.stories, id.id, userId)
            ==> r == Step(Response(200, Caught(InvalidDate)), db)
    ensures r.response.body.OneStory? <==>
      title != "" && story != "" && visitedLocation.Some? && Truthy(visitedDate) && ValidTime(ParseIntOfNumber(visitedDate.value))
      && id.ObjectId? && OwnsStory(db.stories, id.id, userId)
    ensures !r.response.body.OneStory? ==> r.db == db
    ensures r.response.body.OneStory? ==>
      r.response == Response(200, OneStory(r.response.body.story, UpdatedSuccessfully))
    ensures r.response.body.OneStory? ==>
      exists k :: 0 <= k < |db.stories| && db.stories[k].id == id.id && db.stories[k].userId == userId
        && r.response.body.story
           == Edited(db.stories[k], title, story, visitedLocation.value, imageUrl, ParseIntOfNumber(visitedDate.value))
        && r.db == db.(stories := db.stories[k := r.response.body.story])
  {
    if title == "" || story == "" || visitedLocation.None? || !Truthy(visitedDate) then
      Step(Response(400, Failure(true, AllFieldsRequired)), db)
    else if id.Malformed? then
      Step(Response(200, Caught(CastFailure)), db)
    else
      match FindOwnedStory(db.stories, id.id, userId)
      case None => Step(Response(400, Failure(true, StoryNotFound)), db)
      case Some(k) =>
        var date := ParseIntOfNumber(visitedDate.value);
        if !ValidTime(date) then
          Step(Response(200, Caught(InvalidDate)), db)
        else
          var e := Edited(db.stories[k], title, story, visitedLocation.value, imageUrl, date);
          Step(Response(200, OneStory(e, UpdatedSuccessfully)), db.(stories := db.stories[k := e]))
  }

  /** `unlinkSync` of `uploads/<name>` succeeds: the name is a plain file name
      and that file exists. */
  predicate Unlinkable(uploads: set<string>, name: string)
  {
    PlainFileName(name) && name in uploads
  }

  /** A picture this server stored can be removed through the URL the upload
      handler returned for it. */
  lemma UploadedImageUnlinkable(uploads: set<string>, name: string)
    requires name in uploads && PlainFileName(name)
    ensures Unlinkable(uploads, BaseName(UploadsUrlPrefix + name))
  {
    BaseNameAfterDirectory(UploadsUrlPrefix, name);
  }

  /** DELETE /delete-story/:id, as written: the record is deleted first, then
      the image file is unlinked synchronously, so a failed unlink reaches the
      `catch` and is reported as an error after the record is gone. */
  function DeleteStory(db: Db, userId: Id, id: IdParam): (r: Step)
    ensures id.ObjectId? && !OwnsStory(db.stories, id.id, userId)
            ==> r == Step(Response(400, Failure(true, StoryNotFound)), db)
    ensures id.Malformed? ==> r == Step(Response(400, Caught(CastFailure)), db)
    ensures id.ObjectId? && OwnsStory(db.stories, id.id, userId) ==>
      exists k :: 0 <= k < |db.stories| && db.stories[k].id == id.id && db.stories[k].userId == userId
        && r.db.stories == RemoveAt(db.stories, k)
        && r.db.users == db.users && r.db.nextId == db.nextId
        && var name := BaseName(db.stories[k].imageUrl);
           && r.db.uploads == (if Unlinkable(db.uploads, name) then db.uploads - {name} else db.uploads)
           && r.response == if Unlinkable(db.uploads, name) then Response(200, Done(StoryDeleted))
                            else Response(400, Caught(UnlinkFailure))
  {
    if id.Malformed? then
      Step(Response(400, Caught(CastFailure)), db)
    else
      match FindOwnedStory(db.stories, id.id, userId)
      case None => Step(Response(400, Failure(true, StoryNotFound)), db)
      case Some(k) =>
        var removed := db.(stories := RemoveAt(db.stories, k));
        var name := BaseName(db.stories[k].imageUrl);
        if Unlinkable(db.uploads, name) then
          Step(Response(200, Done(StoryDeleted)), removed.(uploads := db.uploads - {name}))
        else
          Step(Response(400, Caught(UnlinkFailure)), removed)
  }

  /** DELETE /delete-story/:id as its logging callback shows it was meant to
      behave: a failed unlink is logged and the deletion still reported as
      done. */
  function DeleteStoryLogged(db: Db, userId: Id, id: IdParam): (r: Step)
    ensures id.ObjectId? && !OwnsStory(db.stories, id.id, userId)
            ==> r == Step(Response(400, Failure(true, StoryNotFound)), db)
    ensures id.Malformed? ==> r == Step(Response(400, Caught(CastFailure)), db)
    ensures r.response == Response(200, Done(StoryDeleted)) <==> id.ObjectId? && OwnsStory(db.stories, id.id, userId)
    ensures id.ObjectId? && OwnsStory(db.stories, id.id, userId) ==>
      exists k :: 0 <= k < |db.stories| && db.stories[k].id == id.id && db.stories[k].userId == userId
        && r.db.stories == RemoveAt(db.stories, k)
        && r.db.users == db.users && r.db.nextId == db.nextId
        && var name := BaseName(db.stories[k].imageUrl);
           r.db.uploads == if Unlinkable(db.uploads, name) then db.uploads - {name} else db.uploads
  {
    if id.Malformed? then
      Step(Response(400, Caught(CastFailure)), db)
    else
      match FindOwnedStory(db.stories, id.id, userId)
      case None => Step(Response(400, Failure(true, StoryNotFound)), db)
      case Some(k) =>
        var removed := db.(stories := RemoveAt(db.stories, k));
        var name := BaseName(db.stories[k].imageUrl);
        var uploads := if Unlinkable(db.uploads, name) then db.uploads - {name} else db.uploads;
        Step(Response(200, Done(StoryDeleted)), removed.(uploads := uploads))
  }

  /** PUT /update-is-favorite/:id. */
  function UpdateIsFavorite(db: Db, userId: Id, id: IdParam, isFavorite: bool): (r: Step)
    ensures id.Malformed? ==> r == Step(Response(400, Caught(CastFailure)), db)
    ensures id.ObjectId? && !OwnsStory(db.stories, id.id, userId)
            ==> r == Step(Response(400, Failure(true, TravelStoryNotFound)), db)
    ensures r.response.status == 200 <==> id.ObjectId? && OwnsStory(db.stories, id.id, userId)
    ensures r.response.status == 200 ==>
      exists k :: 0 <= k < |db.stories| && db.stories[k].id == id.id && db.stories[k].userId == userId
        && r.db == db.(stories := db.stories[k := db.stories[k].(isFavorite := isFavorite)])
        && r.response.body == OneStory(db.stories[k].(isFavorite := isFavorite), UpdatedSuccessfully)
  {
    if id.Malformed? then
      Step(Response(400, Caught(CastFailure)), db)
    else
      match FindOwnedStory(db.stories, id.id, userId)
      case None => Step(Response(400, Failure(true, TravelStoryNotFound)), db)
      case Some(k) =>
        var s := db.stories[k].(isFavorite := isFavorite);
        Step(Response(200, OneStory(s, UpdatedSuccessfully)), db.(stories := db.stories[k := s]))
  }

  /** The search condition: the query occurs, ignoring case, in the title,
      the story text or one of the location tags. */
  predicate MatchesQuery(s: Story, query: string)
  {
    || ContainsIgnoringCase(s.title, query)
    || ContainsIgnoringCase(s.story, query)
    || exists loc :: loc in s.visitedLocation && ContainsIgnoringCase(loc, query)
  }

  /** The search condition ignores the case of the query, as the `i` option
      of the regular expressions does. */
  lemma MatchesQueryIgnoresCase(s: Story, query: string)
    ensures MatchesQuery(s, query) <==> MatchesQuery(s, Lower(query))
  {
    LowerIdempotent(query);
  }

  /** GET /search. The query is matched as a literal substring. */
  function Search(db: Db, userId: Id, query: string): (r: Response)
    ensures query == "" <==> r == Response(400, Failure(true, QueryRequired))
    ensures query != "" ==> r.status == 200 && r.body.Stories?
    ensures query != "" ==> forall x :: (multiset(r.body.stories)[x] ==
      if x.userId == userId && MatchesQuery(x, query) then multiset(db.stories)[x] else 0)
    ensures query != "" ==> FavoritesFirst(r.body.stories)
  {
    if query == "" then
      Response(400, Failure(true, QueryRequired))
    else
      Response(200, Stories(SortFavoritesFirst(Select(StoriesOf(db.stories, userId), (x: Story) => MatchesQuery(x, query)))))
  }

  /** GET /travel-stories/filter. A bound that is missing or not a number
      parses to NaN; the store's date cast then throws. */
  function FilterByDate(db: Db, userId: Id, startDate: Option<int>, endDate: Option<int>): (r: Response)
    ensures r.status == 200 <==>
      startDate.Some? && endDate.Some? && ValidTime(startDate.value) && ValidTime(endDate.value)
    ensures r.status != 200 ==> r == Response(500, Caught(InvalidDate))
    ensures r.status == 200 ==> r.body.Stories? && FavoritesFirst(r.body.stories)
    ensures r.status == 200 ==> forall x :: (multiset(r.body.stories)[x] ==
      if x.userId == userId && startDate.value <= x.visitedDate <= endDate.value then multiset(db.stories)[x] else 0)
    ensures r.status == 200 && startDate.value > endDate.value ==> r.body.stories == []
  {
    if startDate.None? || endDate.None? || !ValidTime(startDate.value) || !ValidTime(endDate.value) then
      Response(500, Caught(InvalidDate))
    else
      var start, end := startDate.value, endDate.value;
      var found := SortFavoritesFirst(Select(StoriesOf(db.stories, userId), (x: Story) => start <= x.visitedDate <= end));
      assert start > end ==> multiset(found) == multiset{};
      Response(200, Stories(found))
  }

  // ----- images -----

  /** POST /image-upload: the filter runs first; an accepted file is written
      under its generated name and its URL returned. */
  function ImageUpload(db: Db, file: Option<UploadedFile>, nowMs: nat): (r: Step)
    ensures file.None? ==> r == Step(Response(400, Failure(true, NoImageUploaded)), db)
    ensures file.Some? && !FileFilter(file.value) ==> r == Step(Response(500, Caught(FileTypeRejected)), db)
    ensures r.response.status == 200 <==> file.Some? && FileFilter(file.value)
    ensures r.response.status == 200 ==>
      var name := StoredFilename(nowMs, file.value.originalname);
      && r.response.body == ImageUrl(UploadsUrlPrefix + name)
      && r.db == db.(uploads := db.uploads + {name})
  {
    if file.None? then
      Step(Response(400, Failure(true, NoImageUploaded)), db)
    else if !FileFilter(file.value) then
      Step(Response(500, Caught(FileTypeRejected)), db)
    else
      var name := StoredFilename(nowMs, file.value.originalname);
      Step(Response(200, ImageUrl(UploadsUrlPrefix + name)), db.(uploads := db.uploads + {name}))
  }

  /** DELETE /delete-image: the file named by the URL's last component is
      removed when it exists. A name that resolves to a directory exists but
      cannot be unlinked. */
  function DeleteImage(db: Db, imageUrl: string): (r: Step)
    ensures imageUrl == "" ==> r == Step(Response(400, Failure(true, ImageUrlRequired)), db)
    ensures r.response == Response(200, Done(ImageDeleted)) <==>
      imageUrl != "" && Unlinkable(db.uploads, BaseName(imageUrl))
    ensures r.response == Response(200, Done(ImageDeleted)) ==>
      r.db == db.(uploads := db.uploads - {BaseName(imageUrl)})
    ensures r.response != Response(200, Done(ImageDeleted)) ==> r.db == db
    ensures imageUrl != "" && PlainFileName(BaseName(imageUrl)) && BaseName(imageUrl) !in db.uploads
            ==> r.response == Response(200, Failure(true, ImageNotFound))
    ensures imageUrl != "" && !PlainFileName(BaseName(imageUrl))
            ==> r == Step(Response(500, Caught(UnlinkFailure)), db)
  {
    if imageUrl == "" then
      Step(Response(400, Failure(true, ImageUrlRequired)), db)
    else
      var name := BaseName(imageUrl);
      if !PlainFileName(name) then
        Step(Response(500, Caught(UnlinkFailure)), db)
      else if name in db.uploads then
        Step(Response(200, Done(ImageDeleted)), db.(uploads := db.uploads - {name}))
      else
        Step(Response(200, Failure(true, ImageNotFound)), db)
  }
}
