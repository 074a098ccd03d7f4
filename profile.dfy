// The profile page: whose profile is shown, whether it is the viewer's
// own, and the posts and media listed on it.

module Profile {
  import opened Common
  import opened Domain

  /** A post with a non-empty image counts as media (`post.image` is truthy). */
  predicate HasImage(p: Post) {
    p.image.Some? && p.image.value != []
  }

  datatype ProfileView =
    | NotFound
    | Shown(user: User, isOwn: bool, posts: seq<Post>, media: seq<Post>, postCount: nat)

  /** `userId ? USERS[userId] : loggedInUser`; an empty id counts as none. */
  function DisplayedUser(userId: Option<string>, loggedIn: Option<User>, directory: seq<User>): (r: Option<User>)
    ensures userId.Some? && userId.value != [] ==> r == FindUser(directory, userId.value)
    ensures !(userId.Some? && userId.value != []) ==> r == loggedIn
  {
    if userId.Some? && userId.value != [] then FindUser(directory, userId.value) else loggedIn
  }

  /** What the page renders: "User not found" without a displayed or a
    * signed-in user; otherwise the displayed user's posts and media. */
  function View(userId: Option<string>, loggedIn: Option<User>, directory: seq<User>, allPosts: seq<Post>): (r: ProfileView)
    ensures r.NotFound? <==> DisplayedUser(userId, loggedIn, directory).None? || loggedIn.None?
    ensures r.Shown? ==> r.user == DisplayedUser(userId, loggedIn, directory).value
    ensures r.Shown? ==> (r.isOwn <==> r.user.id == loggedIn.value.id)
    ensures r.Shown? ==> forall p :: p in r.posts <==> p in allPosts && p.author.id == r.user.id
    ensures r.Shown? ==> forall p :: p in r.media <==> p in r.posts && HasImage(p)
    ensures r.Shown? ==> r.postCount == |r.posts|
  {
    var shown := DisplayedUser(userId, loggedIn, directory);
    if shown.None? || loggedIn.None? then NotFound
    else
      var u := shown.value;
      var posts := Filter(allPosts, (p: Post) => p.author.id == u.id);
      Shown(u, u.id == loggedIn.value.id, posts, Filter(posts, HasImage), |posts|)
  }

  /** An id the directory does not know is "User not found", whoever is signed in. */
  lemma UnknownIdNotFound(id: string, loggedIn: Option<User>, directory: seq<User>, allPosts: seq<Post>)
    requires id != [] && !HasMember(directory, id)
    ensures View(Some(id), loggedIn, directory, allPosts) == NotFound
  {
  }

  /** Without an id, a signed-in viewer sees their own profile. */
  lemma NoIdIsOwnProfile(loggedIn: User, directory: seq<User>, allPosts: seq<Post>)
    ensures View(None, Some(loggedIn), directory, allPosts).Shown?
    ensures View(None, Some(loggedIn), directory, allPosts).isOwn
    ensures View(None, Some(loggedIn), directory, allPosts).user == loggedIn
  {
  }

  /** The lists keep the feed's order, and media are a subset of posts. */
  lemma ProfileListsInOrder(userId: Option<string>, loggedIn: Option<User>, directory: seq<User>, allPosts: seq<Post>)
    requires View(userId, loggedIn, directory, allPosts).Shown?
    ensures Subsequence(View(userId, loggedIn, directory, allPosts).posts, allPosts)
    ensures Subsequence(View(userId, loggedIn, directory, allPosts).media, View(userId, loggedIn, directory, allPosts).posts)
  {
    var u := DisplayedUser(userId, loggedIn, directory).value;
    FilterKeepsOrder(allPosts, (p: Post) => p.author.id == u.id);
    FilterKeepsOrder(Filter(allPosts, (p: Post) => p.author.id == u.id), HasImage);
  }
}
