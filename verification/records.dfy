/** The backend's persistent state: the user and travel-story collections of
    the document store, and the names of the files in the uploads directory.
    Document ids are drawn from one counter, standing for the store's
    generated object ids. */
module Records {
  import opened PathPosix
  import Tokens

  type Id = Tokens.Id

  /** A registered account. `passwordHash` is the digest the hashing
      function produced; the plaintext is never stored. */
  datatype User = User(id: Id, fullName: string, email: string, passwordHash: string)

  /** A travel story. `visitedDate` is a time value in milliseconds since the
      epoch; `userId` is the owning account. */
  datatype Story = Story(
    id: Id,
    title: string,
    story: string,
    visitedLocation: seq<string>,
    isFavorite: bool,
    userId: Id,
    imageUrl: string,
    visitedDate: int)

  /** The whole server state a request can read or change. */
  datatype Db = Db(users: seq<User>, stories: seq<Story>, uploads: set<string>, nextId: nat)

  /** What the handlers keep true of the state: ids are unique and below the
      counter, no two accounts share an email, and every upload is a plain
      file name. */
  ghost predicate Valid(db: Db)
  {
    && (forall i, j :: 0 <= i < j < |db.users| ==> db.users[i].id != db.users[j].id)
    && (forall i, j :: 0 <= i < j < |db.users| ==> db.users[i].email != db.users[j].email)
    && (forall i, j :: 0 <= i < j < |db.stories| ==> db.stories[i].id != db.stories[j].id)
    && (forall i :: 0 <= i < |db.users| ==> db.users[i].id < db.nextId)
    && (forall i :: 0 <= i < |db.stories| ==> db.stories[i].id < db.nextId)
    && (forall n :: n in db.uploads ==> PlainFileName(n))
  }

  /** Some account is registered under `email`. */
  predicate EmailTaken(users: seq<User>, email: string)
  {
    exists u :: u in users && u.email == email
  }

  /** Some account has id `id`. */
  predicate UserExists(users: seq<User>, id: Id)
  {
    exists u :: u in users && u.id == id
  }

  /** Some story has id `id` and belongs to `userId`: the `{_id, userId}`
      lookup every by-id story operation makes. */
  predicate OwnsStory(stories: seq<Story>, id: Id, userId: Id)
  {
    exists s :: s in stories && s.id == id && s.userId == userId
  }
}
