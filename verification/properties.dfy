/** Properties that relate several requests: the state invariant every
    mutating handler keeps, the account and upload round trips, and the
    isolation of one user's stories from another user's requests. */
module Properties {
  import opened Optional
  import opened PathPosix
  import opened Tokens
  import opened Upload
  import opened Records
  import opened Queries
  import opened Handlers

  // ----- the state invariant -----

  lemma CreateAccountKeepsValid(db: Db, crypto: Crypto, nowMs: nat,
                                fullName: string, email: string, password: string)
    requires Valid(db)
    ensures Valid(CreateAccount(db, crypto, nowMs, fullName, email, password).db)
  {
    var r := CreateAccount(db, crypto, nowMs, fullName, email, password);
    if r.response.status == 201 {
      var users := r.db.users;
      assert forall i :: 0 <= i < |db.users| ==> users[i] == db.users[i];
      assert users[|db.users|].email == email && users[|db.users|].id == db.nextId;
      forall i | 0 <= i < |db.users|
        ensures users[i].email != email
      {
        assert db.users[i] in db.users;
      }
    }
  }

  lemma AddStoryKeepsValid(db: Db, userId: Id, title: string, story: string,
                           visitedLocation: Option<seq<string>>, imageUrl: string,
                           visitedDate: Option<int>)
    requires Valid(db)
    ensures Valid(AddStory(db, userId, title, story, visitedLocation, imageUrl, visitedDate).db)
  {
    var r := AddStory(db, userId, title, story, visitedLocation, imageUrl, visitedDate);
    if r.response.status == 201 {
      assert forall i :: 0 <= i < |db.stories| ==> r.db.stories[i] == db.stories[i];
      assert r.db.stories[|db.stories|].id == db.nextId;
    }
  }

  lemma EditStoryKeepsValid(db: Db, userId: Id, id: IdParam, title: string, story: string,
                            visitedLocation: Option<seq<string>>, imageUrl: string,
                            visitedDate: Option<int>)
    requires Valid(db)
    ensures Valid(EditStory(db, userId, id, title, story, visitedLocation, imageUrl, visitedDate).db)
  {
    var r := EditStory(db, userId, id, title, story, visitedLocation, imageUrl, visitedDate);
    if r.response.body.OneStory? {
      var k :| 0 <= k < |db.stories| && r.db == db.(stories := db.stories[k := r.response.body.story])
                && r.response.body.story.id == db.stories[k].id;
      assert forall i :: 0 <= i < |db.stories| ==> r.db.stories[i].id == db.stories[i].id;
    }
  }

  lemma UpdateIsFavoriteKeepsValid(db: Db, userId: Id, id: IdParam, isFavorite: bool)
    requires Valid(db)
    ensures Valid(UpdateIsFavorite(db, userId, id, isFavorite).db)
  {
    var r := UpdateIsFavorite(db, userId, id, isFavorite);
    if r.response.status == 200 {
      var k :| 0 <= k < |db.stories|
                && r.db == db.(stories := db.stories[k := db.stories[k].(isFavorite := isFavorite)]);
      assert forall i :: 0 <= i < |db.stories| ==> r.db.stories[i].id == db.stories[i].id;
    }
  }

  /** Deleting a story keeps the other stories, in order, and can only remove
      upload names. */
  lemma RemovalKeepsValid(db: Db, k: nat, uploads: set<string>)
    requires Valid(db) && k < |db.stories| && uploads <= db.uploads
    ensures Valid(db.(stories := RemoveAt(db.stories, k), uploads := uploads))
  {
    var ss := RemoveAt(db.stories, k);
    forall i, j | 0 <= i < j < |ss|
      ensures ss[i].id != ss[j].id
    {
      var i', j' := if i < k then i else i + 1, if j < k then j else j + 1;
      assert ss[i] == db.stories[i'] && ss[j] == db.stories[j'];
    }
    forall i | 0 <= i < |ss|
      ensures ss[i].id < db.nextId
    {
      assert ss[i] == db.stories[if i < k then i else i + 1];
    }
  }

  lemma DeleteStoryKeepsValid(db: Db, userId: Id, id: IdParam)
    requires Valid(db)
    ensures Valid(DeleteStory(db, userId, id).db)
  {
    var r := DeleteStory(db, userId, id);
    if id.ObjectId? && OwnsStory(db.stories, id.id, userId) {
      var k :| 0 <= k < |db.stories| && r.db.stories == RemoveAt(db.stories, k)
                && r.db.users == db.users && r.db.nextId == db.nextId && r.db.uploads <= db.uploads;
      RemovalKeepsValid(db, k, r.db.uploads);
      assert r.db == db.(stories := RemoveAt(db.stories, k), uploads := r.db.uploads);
    }
  }

  lemma DeleteStoryLoggedKeepsValid(db: Db, userId: Id, id: IdParam)
    requires Valid(db)
    ensures Valid(DeleteStoryLogged(db, userId, id).db)
  {
    var r := DeleteStoryLogged(db, userId, id);
    if id.ObjectId? && OwnsStory(db.stories, id.id, userId) {
      var k :| 0 <= k < |db.stories| && r.db.stories == RemoveAt(db.stories, k)
                && r.db.users == db.users && r.db.nextId == db.nextId && r.db.uploads <= db.uploads;
      RemovalKeepsValid(db, k, r.db.uploads);
      assert r.db == db.(stories := RemoveAt(db.stories, k), uploads := r.db.uploads);
    }
  }

  lemma ImageUploadKeepsValid(db: Db, file: Option<UploadedFile>, nowMs: nat)
    requires Valid(db)
    ensures Valid(ImageUpload(db, file, nowMs).db)
  {
    var r := ImageUpload(db, file, nowMs);
    if r.response.status == 200 {
      var name := StoredFilename(nowMs, file.value.originalname);
      AddUploadKeepsValid(db, name);
    }
  }

  lemma AddUploadKeepsValid(db: Db, name: string)
    requires Valid(db) && PlainFileName(name)
    ensures Valid(db.(uploads := db.uploads + {name}))
  {
  }

  lemma DeleteImageKeepsValid(db: Db, imageUrl: string)
    requires Valid(db)
    ensures Valid(DeleteImage(db, imageUrl).db)
  {
  }

  // ----- accounts -----

  /** A freshly registered account can log in with the password it was
      registered with, and is told the same profile it registered. */
  lemma RegisterThenLogin(db: Db, crypto: Crypto, registeredMs: nat, loginMs: nat,
                          fullName: string, email: string, password: string)
    requires Faithful(crypto)
    requires fullName != "" && email != "" && password != "" && !EmailTaken(db.users, email)
    ensures var created := CreateAccount(db, crypto, registeredMs, fullName, email, password);
      && created.response.status == 201
      && Login(created.db, crypto, loginMs, email, password)
         == Response(200, Authenticated(UserView(fullName, email), Sign(db.nextId, loginMs), LoginSuccessful))
  {
    var created := CreateAccount(db, crypto, registeredMs, fullName, email, password);
    var users := created.db.users;
    var i := FindUserByEmail(users, email);
    assert users[|db.users|].email == email;
    assert users[|db.users|] in users;
    assert i == Some(|db.users|);
  }

  /** Under the invariant, the account the login handler looks up by email
      is the one registered with that email, since no two accounts share one. */
  lemma FindsRegisteredUser(db: Db, u: User)
    requires Valid(db)
    requires u in db.users
    ensures FindUserByEmail(db.users, u.email).Some?
    ensures db.users[FindUserByEmail(db.users, u.email).value] == u
  {
    var k :| 0 <= k < |db.users| && db.users[k] == u;
  }

  /** Login with both fields present decides on the registered account's
      digest: a matching password gets that account's profile and a token
      naming it, any other password is refused. */
  lemma LoginChecksStoredPassword(db: Db, crypto: Crypto, nowMs: nat, email: string, password: string, u: User)
    requires Valid(db)
    requires email != "" && password != ""
    requires u in db.users && u.email == email
    ensures crypto.compare(password, u.passwordHash) ==>
      Login(db, crypto, nowMs, email, password)
        == Response(200, Authenticated(UserView(u.fullName, u.email), Sign(u.id, nowMs), LoginSuccessful))
    ensures !crypto.compare(password, u.passwordHash) ==>
      Login(db, crypto, nowMs, email, password) == Response(400, Failure(false, InvalidPassword))
  {
    FindsRegisteredUser(db, u);
  }

  /** The token a registration hands out names the new account, and
      resolves to it for the following 72 hours. */
  lemma RegistrationTokenResolves(db: Db, crypto: Crypto, registeredMs: nat, nowMs: nat,
                                  fullName: string, email: string, password: string)
    requires Valid(db)
    requires fullName != "" && email != "" && password != "" && !EmailTaken(db.users, email)
    requires nowMs + 1000 <= registeredMs + LifetimeSeconds * 1000
    ensures var created := CreateAccount(db, crypto, registeredMs, fullName, email, password);
      && Verify(created.response.body.accessToken, nowMs) == Some(db.nextId)
      && GetUser(created.db, db.nextId)
         == Response(200, CurrentUser(User(db.nextId, fullName, email, crypto.hash(password))))
  {
    var created := CreateAccount(db, crypto, registeredMs, fullName, email, password);
    TokenLifetime(db.nextId, registeredMs, nowMs);
    var users := created.db.users;
    var i := FindUserById(users, db.nextId);
    assert users[|db.users|] in users;
    assert users[|db.users|].id == db.nextId;
    assert i == Some(|db.users|);
  }

  /** A date of 10^21 ms is far past the last valid time, yet `parseInt`
      reads its string form "1e+21" as 1, so the story is added, dated one
      millisecond after the epoch. */
  lemma ExponentFormDateAdded(db: Db, userId: Id, title: string, story: string,
                              visitedLocation: seq<string>, imageUrl: string)
    requires title != "" && story != "" && imageUrl != ""
    ensures var r := AddStory(db, userId, title, story, Some(visitedLocation), imageUrl, Some(ExponentFormBound));
      && r.response.status == 201
      && r.response.body.story.visitedDate == 1
  {
    ExponentFormBoundReadsAsOne();
  }

  // ----- stories -----

  /** A story just added shows up in its author's listing, with the fields
      it was given and not marked as a favorite. */
  lemma AddThenList(db: Db, userId: Id, title: string, story: string,
                    visitedLocation: seq<string>, imageUrl: string, visitedDate: int)
    requires title != "" && story != "" && imageUrl != "" && visitedDate != 0 && ValidTime(visitedDate)
    ensures var added := AddStory(db, userId, title, story, Some(visitedLocation), imageUrl, Some(visitedDate));
      && added.response.status == 201
      && Story(db.nextId, title, story, visitedLocation, false, userId, imageUrl, visitedDate)
         in ListStories(added.db, userId).body.stories
  {
    var added := AddStory(db, userId, title, story, Some(visitedLocation), imageUrl, Some(visitedDate));
    var s := Story(db.nextId, title, story, visitedLocation, false, userId, imageUrl, visitedDate);
    assert added.db.stories == db.stories + [s];
    assert multiset(added.db.stories)[s] > 0;
    assert multiset(ListStories(added.db, userId).body.stories)[s] > 0;
  }

  /** Another user's listing is the same before and after a request of
      `userId` that changed the stories at `k` only by rewriting a story of
      `userId` into another story of `userId`. */
  lemma UpdateIsolated(ss: seq<Story>, k: nat, x: Story, userId: Id, other: Id)
    requires k < |ss| && ss[k].userId == userId && x.userId == userId && other != userId
    ensures StoriesOf(ss[k := x], other) == StoriesOf(ss, other)
  {
    SelectUpdateRejected(ss, k, x, OwnedBy(other));
  }

  /** Adding a story leaves every other user's listing as it was. */
  lemma AddStoryIsolated(db: Db, userId: Id, title: string, story: string,
                         visitedLocation: Option<seq<string>>, imageUrl: string,
                         visitedDate: Option<int>, other: Id)
    requires other != userId
    ensures ListStories(AddStory(db, userId, title, story, visitedLocation, imageUrl, visitedDate).db, other)
            == ListStories(db, other)
  {
    var r := AddStory(db, userId, title, story, visitedLocation, imageUrl, visitedDate);
    if r.response.status == 201 {
      var s := Story(db.nextId, title, story, visitedLocation.value, false, userId, imageUrl,
                     ParseIntOfNumber(visitedDate.value));
      assert r.db.stories == db.stories + [s];
      SelectAppendRejected(db.stories, s, OwnedBy(other));
    }
  }

  /** Editing a story leaves every other user's listing as it was. */
  lemma EditStoryIsolated(db: Db, userId: Id, id: IdParam, title: string, story: string,
                          visitedLocation: Option<seq<string>>, imageUrl: string,
                          visitedDate: Option<int>, other: Id)
    requires other != userId
    ensures ListStories(EditStory(db, userId, id, title, story, visitedLocation, imageUrl, visitedDate).db, other)
            == ListStories(db, other)
  {
    var r := EditStory(db, userId, id, title, story, visitedLocation, imageUrl, visitedDate);
    if r.response.body.OneStory? {
      var e := r.response.body.story;
      var k :| 0 <= k < |db.stories| && db.stories[k].userId == userId && e.userId == db.stories[k].userId
                && r.db == db.(stories := db.stories[k := e]);
      UpdateIsolated(db.stories, k, e, userId, other);
    }
  }

  /** Marking a story leaves every other user's listing as it was. */
  lemma UpdateIsFavoriteIsolated(db: Db, userId: Id, id: IdParam, isFavorite: bool, other: Id)
    requires other != userId
    ensures ListStories(UpdateIsFavorite(db, userId, id, isFavorite).db, other) == ListStories(db, other)
  {
    var r := UpdateIsFavorite(db, userId, id, isFavorite);
    if r.response.status == 200 {
      var k :| 0 <= k < |db.stories| && db.stories[k].userId == userId
                && r.db == db.(stories := db.stories[k := db.stories[k].(isFavorite := isFavorite)]);
      UpdateIsolated(db.stories, k, db.stories[k].(isFavorite := isFavorite), userId, other);
    }
  }

  /** Deleting a story leaves every other user's listing as it was. */
  lemma DeleteStoryIsolated(db: Db, userId: Id, id: IdParam, other: Id)
    requires other != userId
    ensures ListStories(DeleteStory(db, userId, id).db, other) == ListStories(db, other)
  {
    var r := DeleteStory(db, userId, id);
    if id.ObjectId? && OwnsStory(db.stories, id.id, userId) {
      var k :| 0 <= k < |db.stories| && db.stories[k].userId == userId && r.db.stories == RemoveAt(db.stories, k);
      SelectRemoveRejected(db.stories, k, OwnedBy(other));
    }
  }

  /** The same holds for the delete that logs a failed unlink. */
  lemma DeleteStoryLoggedIsolated(db: Db, userId: Id, id: IdParam, other: Id)
    requires other != userId
    ensures ListStories(DeleteStoryLogged(db, userId, id).db, other) == ListStories(db, other)
  {
    var r := DeleteStoryLogged(db, userId, id);
    if id.ObjectId? && OwnsStory(db.stories, id.id, userId) {
      var k :| 0 <= k < |db.stories| && db.stories[k].userId == userId && r.db.stories == RemoveAt(db.stories, k);
      SelectRemoveRejected(db.stories, k, OwnedBy(other));
    }
  }

  /** Marking a story twice with the same value is the same as marking it
      once. */
  lemma UpdateIsFavoriteIdempotent(db: Db, userId: Id, id: IdParam, isFavorite: bool)
    ensures var once := UpdateIsFavorite(db, userId, id, isFavorite);
            UpdateIsFavorite(once.db, userId, id, isFavorite) == once
  {
    var once := UpdateIsFavorite(db, userId, id, isFavorite);
    if id.ObjectId? && OwnsStory(db.stories, id.id, userId) {
      var k := FindOwnedStory(db.stories, id.id, userId).value;
      var ss := once.db.stories;
      assert ss == db.stories[k := db.stories[k].(isFavorite := isFavorite)];
      assert ss[k] in ss;
      var k2 := FindOwnedStory(ss, id.id, userId).value;
      assert k2 == k;
      assert ss[k := ss[k].(isFavorite := isFavorite)] == ss;
    }
  }

  /** Every search hit is one of the caller's listed stories. */
  lemma SearchWithinListing(db: Db, userId: Id, query: string)
    requires query != ""
    ensures forall x :: x in Search(db, userId, query).body.stories ==> x in ListStories(db, userId).body.stories
  {
    var found := Search(db, userId, query).body.stories;
    var listed := ListStories(db, userId).body.stories;
    forall x | x in found
      ensures x in listed
    {
      assert multiset(found)[x] > 0;
      assert multiset(listed)[x] == multiset(db.stories)[x];
    }
  }

  // ----- images -----

  /** The URL an upload returns names, through the file name delete-image
      extracts from it, the file the upload stored: deleting it succeeds and
      removes exactly that file. */
  lemma UploadThenDeleteImage(db: Db, file: UploadedFile, nowMs: nat)
    requires FileFilter(file)
    ensures var up := ImageUpload(db, Some(file), nowMs);
      && up.response.status == 200
      && var del := DeleteImage(up.db, up.response.body.imageUrl);
      && del.response == Response(200, Done(ImageDeleted))
      && del.db == up.db.(uploads := up.db.uploads - {StoredFilename(nowMs, file.originalname)})
  {
    var name := StoredFilename(nowMs, file.originalname);
    BaseNameAfterDirectory(UploadsUrlPrefix, name);
  }

  /** When the stored name was new, upload followed by delete leaves the
      state as it found it. */
  lemma UploadThenDeleteRestores(db: Db, file: UploadedFile, nowMs: nat)
    requires FileFilter(file) && StoredFilename(nowMs, file.originalname) !in db.uploads
    ensures var up := ImageUpload(db, Some(file), nowMs);
            DeleteImage(up.db, up.response.body.imageUrl).db == db
  {
    var name := StoredFilename(nowMs, file.originalname);
    UploadThenDeleteImage(db, file, nowMs);
    var up := ImageUpload(db, Some(file), nowMs);
    AddThenRemoveUpload(db, name);
  }

  lemma AddThenRemoveUpload(db: Db, name: string)
    requires name !in db.uploads
    ensures db.(uploads := db.uploads + {name}).(uploads := db.uploads + {name} - {name}) == db
  {
    assert db.uploads + {name} - {name} == db.uploads;
  }

  // ----- the delete-story finding -----

  lemma PlaceholderBaseName()
    ensures BaseName(PlaceholderImageUrl) == PlaceholderFile
  {
    BaseNameAfterDirectory(AssetsUrlPrefix, PlaceholderFile);
  }

  /** As written, deleting a story whose image is the placeholder (what an
      edit without an image leaves) reports a failure, yet the story is
      gone: the placeholder is not a file of the uploads directory. */
  lemma DeletePlaceholderStoryAsWritten(db: Db, userId: Id, k: nat)
    requires Valid(db) && PlaceholderFile !in db.uploads
    requires k < |db.stories| && db.stories[k].userId == userId && db.stories[k].imageUrl == PlaceholderImageUrl
    ensures var r := DeleteStory(db, userId, ObjectId(db.stories[k].id));
      && r.response == Response(400, Caught(UnlinkFailure))
      && r.db.stories == RemoveAt(db.stories, k)
  {
    var id := db.stories[k].id;
    assert db.stories[k] in db.stories;
    var r := DeleteStory(db, userId, ObjectId(id));
    var j :| 0 <= j < |db.stories| && db.stories[j].id == id && r.db.stories == RemoveAt(db.stories, j)
             && var name := BaseName(db.stories[j].imageUrl);
                r.response == if Unlinkable(db.uploads, name) then Response(200, Done(StoryDeleted))
                              else Response(400, Caught(UnlinkFailure));
    assert j == k;
    PlaceholderBaseName();
  }

  /** The same request with the unlink failure logged, as the callback
      intends: the deletion is reported as done. */
  lemma DeletePlaceholderStoryLogged(db: Db, userId: Id, k: nat)
    requires Valid(db) && PlaceholderFile !in db.uploads
    requires k < |db.stories| && db.stories[k].userId == userId && db.stories[k].imageUrl == PlaceholderImageUrl
    ensures var r := DeleteStoryLogged(db, userId, ObjectId(db.stories[k].id));
      && r.response == Response(200, Done(StoryDeleted))
      && r.db.stories == RemoveAt(db.stories, k)
  {
    var id := db.stories[k].id;
    assert db.stories[k] in db.stories;
    var r := DeleteStoryLogged(db, userId, ObjectId(id));
    var j :| 0 <= j < |db.stories| && db.stories[j].id == id && r.db.stories == RemoveAt(db.stories, j);
    assert j == k;
  }

  /** An edit without an image gives the story the placeholder image, so the
      as-written delete that follows always reports a failure. */
  lemma EditWithoutImageThenDelete(db: Db, userId: Id, k: nat, title: string, story: string,
                                   visitedLocation: seq<string>, visitedDate: int)
    requires Valid(db) && PlaceholderFile !in db.uploads
    requires k < |db.stories| && db.stories[k].userId == userId
    requires title != "" && story != "" && visitedDate != 0 && ValidTime(visitedDate)
    ensures var id := ObjectId(db.stories[k].id);
      var edited := EditStory(db, userId, id, title, story, Some(visitedLocation), "", Some(visitedDate));
      && edited.response.status == 200
      && DeleteStory(edited.db, userId, id).response == Response(400, Caught(UnlinkFailure))
      && DeleteStoryLogged(edited.db, userId, id).response == Response(200, Done(StoryDeleted))
  {
    var id := ObjectId(db.stories[k].id);
    assert db.stories[k] in db.stories;
    var edited := EditStory(db, userId, id, title, story, Some(visitedLocation), "", Some(visitedDate));
    var e := edited.response.body.story;
    var j :| 0 <= j < |db.stories| && db.stories[j].id == id.id
             && e == Edited(db.stories[j], title, story, visitedLocation, "", visitedDate)
             && edited.db == db.(stories := db.stories[j := e]);
    assert j == k;
    EditStoryKeepsValid(db, userId, id, title, story, Some(visitedLocation), "", Some(visitedDate));
    DeletePlaceholderStoryAsWritten(edited.db, userId, k);
    DeletePlaceholderStoryLogged(edited.db, userId, k);
  }
}
