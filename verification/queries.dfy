/** The store queries the handlers issue: filtering, the `{isFavorite: -1}`
    sort, and first-match lookups. */
module Queries {
  import opened Optional
  import opened Records

  /** The stories that satisfy `keep`, in store order. Each story occurs as
      often as it does in `ss` when kept, and not at all otherwise. */
  function Select(ss: seq<Story>, keep: Story -> bool): (r: seq<Story>)
    ensures forall x :: multiset(r)[x] == if keep(x) then multiset(ss)[x] else 0
    ensures forall x :: x in r <==> x in ss && keep(x)
    ensures |r| <= |ss|
    decreases |ss|
  {
    if ss == [] then []
    else
      var rest := Select(ss[1..], keep);
      assert ss == [ss[0]] + ss[1..];
      assert multiset(ss) == multiset{ss[0]} + multiset(ss[1..]);
      if keep(ss[0]) then [ss[0]] + rest else rest
  }

  /** The `{userId}` condition of every listing. */
  function OwnedBy(userId: Id): Story -> bool
  {
    (x: Story) => x.userId == userId
  }

  /** The stories of one user. */
  function StoriesOf(ss: seq<Story>, userId: Id): (r: seq<Story>)
    ensures forall x :: multiset(r)[x] == if x.userId == userId then multiset(ss)[x] else 0
    ensures forall x :: x in r <==> x in ss && x.userId == userId
  {
    Select(ss, OwnedBy(userId))
  }

  /** No non-favorite comes before a favorite. */
  predicate FavoritesFirst(ss: seq<Story>)
  {
    forall i, j :: 0 <= i < j < |ss| && ss[j].isFavorite ==> ss[i].isFavorite
  }

  /** `.sort({isFavorite: -1})`: the same stories, favorites first. The
      store leaves the order of equal keys open; this model keeps store
      order among them, and the contract promises no more than the sort. */
  function SortFavoritesFirst(ss: seq<Story>): (r: seq<Story>)
    ensures multiset(r) == multiset(ss)
    ensures FavoritesFirst(r)
  {
    var favorites := Select(ss, (x: Story) => x.isFavorite);
    var others := Select(ss, (x: Story) => !x.isFavorite);
    PartitionKeepsMultiset(ss, favorites, others);
    BlocksAreFavoritesFirst(favorites, others);
    favorites + others
  }

  lemma PartitionKeepsMultiset(ss: seq<Story>, favorites: seq<Story>, others: seq<Story>)
    requires forall x :: multiset(favorites)[x] == if x.isFavorite then multiset(ss)[x] else 0
    requires forall x :: multiset(others)[x] == if !x.isFavorite then multiset(ss)[x] else 0
    ensures multiset(favorites + others) == multiset(ss)
  {
    assert forall x :: multiset(favorites + others)[x] == multiset(ss)[x];
  }

  lemma BlocksAreFavoritesFirst(favorites: seq<Story>, others: seq<Story>)
    requires forall x :: x in favorites ==> x.isFavorite
    requires forall x :: x in others ==> !x.isFavorite
    ensures FavoritesFirst(favorites + others)
  {
    var r := favorites + others;
    assert forall k :: |favorites| <= k < |r| ==> r[k] == others[k - |favorites|];
    assert forall k :: |favorites| <= k < |r| ==> !r[k].isFavorite;
    assert forall k :: 0 <= k < |favorites| ==> r[k] == favorites[k];
  }

  /** The index of the first element satisfying `p`, if any: `findOne`. */
  function FirstIndex<T>(s: seq<T>, p: T -> bool): (r: Option<nat>)
    ensures r.Some? ==> r.value < |s| && p(s[r.value])
    ensures r.Some? ==> forall j :: 0 <= j < r.value ==> !p(s[j])
    ensures r.None? <==> forall j :: 0 <= j < |s| ==> !p(s[j])
    decreases |s|
  {
    if s == [] then None
    else if p(s[0]) then Some(0)
    else
      match FirstIndex(s[1..], p)
      case None => None
      case Some(k) => Some(k + 1)
  }

  /** `User.findOne({email})`. */
  function FindUserByEmail(users: seq<User>, email: string): (r: Option<nat>)
    ensures r.Some? ==> r.value < |users| && users[r.value].email == email
    ensures r.None? <==> !EmailTaken(users, email)
  {
    FirstIndex(users, (u: User) => u.email == email)
  }

  /** `User.findOne({_id})`. */
  function FindUserById(users: seq<User>, id: Id): (r: Option<nat>)
    ensures r.Some? ==> r.value < |users| && users[r.value].id == id
    ensures r.None? <==> !UserExists(users, id)
  {
    FirstIndex(users, (u: User) => u.id == id)
  }

  /** `TravelStory.findOne({_id, userId})`. */
  function FindOwnedStory(stories: seq<Story>, id: Id, userId: Id): (r: Option<nat>)
    ensures r.Some? ==> r.value < |stories| && stories[r.value].id == id && stories[r.value].userId == userId
    ensures r.Some? ==> forall j :: 0 <= j < r.value ==> !(stories[j].id == id && stories[j].userId == userId)
    ensures r.None? <==> !OwnsStory(stories, id, userId)
  {
    FirstIndex(stories, (s: Story) => s.id == id && s.userId == userId)
  }

  /** The stories with the one at index `k` deleted. */
  function RemoveAt(ss: seq<Story>, k: nat): (r: seq<Story>)
    requires k < |ss|
    ensures |r| == |ss| - 1
    ensures multiset(r) == multiset(ss) - multiset{ss[k]}
    ensures forall j :: 0 <= j < k ==> r[j] == ss[j]
    ensures forall j :: k <= j < |r| ==> r[j] == ss[j + 1]
  {
    assert ss == ss[..k] + [ss[k]] + ss[k + 1..];
    ss[..k] + ss[k + 1..]
  }

  /** Filtering distributes over concatenation. */
  lemma {:induction false} SelectAppend(a: seq<Story>, b: seq<Story>, keep: Story -> bool)
    ensures Select(a + b, keep) == Select(a, keep) + Select(b, keep)
    decreases |a|
  {
    if a == [] {
      assert a + b == b;
    } else {
      assert (a + b)[1..] == a[1..] + b;
      SelectAppend(a[1..], b, keep);
    }
  }

  /** Replacing a story that `keep` rejects by another it rejects leaves the
      selection unchanged. */
  lemma SelectUpdateRejected(ss: seq<Story>, k: nat, x: Story, keep: Story -> bool)
    requires k < |ss| && !keep(ss[k]) && !keep(x)
    ensures Select(ss[k := x], keep) == Select(ss, keep)
  {
    assert ss == ss[..k] + [ss[k]] + ss[k + 1..];
    assert ss[k := x] == ss[..k] + [x] + ss[k + 1..];
    SelectAppend(ss[..k] + [ss[k]], ss[k + 1..], keep);
    SelectAppend(ss[..k], [ss[k]], keep);
    SelectAppend(ss[..k] + [x], ss[k + 1..], keep);
    SelectAppend(ss[..k], [x], keep);
  }

  /** Deleting a story that `keep` rejects leaves the selection unchanged. */
  lemma {:induction false} SelectRemoveRejected(ss: seq<Story>, k: nat, keep: Story -> bool)
    requires k < |ss| && !keep(ss[k])
    ensures Select(RemoveAt(ss, k), keep) == Select(ss, keep)
  {
    var before, after := ss[..k], ss[k + 1..];
    assert ss == (before + [ss[k]]) + after;
    assert RemoveAt(ss, k) == before + after;
    SelectAppend(before + [ss[k]], after, keep);
    SelectAppendRejected(before, ss[k], keep);
    SelectAppend(before, after, keep);
  }

  /** Appending a story that `keep` rejects leaves the selection unchanged. */
  lemma SelectAppendRejected(ss: seq<Story>, x: Story, keep: Story -> bool)
    requires !keep(x)
    ensures Select(ss + [x], keep) == Select(ss, keep)
  {
    SelectAppend(ss, [x], keep);
  }
}
