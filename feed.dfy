// The home feed: which posts a viewer sees, how posts and broadcasts are
// merged and ordered (broadcasts of the last 24 hours pinned on top), where
// a new post is inserted, and the like button of a post card.

module Feed {
  import opened Common
  import opened Domain

  const DayMs := 24 * 60 * 60 * 1000

  /** `FeedItem`: a post or a broadcast tagged with its kind. */
  datatype FeedItem = PostItem(post: Post) | BroadcastItem(broadcast: Broadcast)
  {
    function Timestamp(): int {
      match this
      case PostItem(p) => p.timestamp
      case BroadcastItem(b) => b.timestamp
    }
  }

  /** A broadcast newer than the cutoff (`now - 24h`, strictly later) is pinned. */
  predicate IsPinned(item: FeedItem, cutoff: int) {
    item.BroadcastItem? && item.Timestamp() > cutoff
  }

  // ----------------------------------------------------------- visibility

  /** Students see only the posts of teachers and administrators; everyone
    * else sees every post. */
  function VisiblePosts(viewer: Role, posts: seq<Post>): (r: seq<Post>)
    ensures forall p :: p in r <==> p in posts && (viewer == Student ==> p.author.role != Student)
    ensures viewer != Student ==> r == posts
  {
    if viewer == Student then Filter(posts, (p: Post) => p.author.role == Teacher || p.author.role == Admin)
    else posts
  }

  /** A student's visible posts keep their relative order. */
  lemma VisibleKeepsOrder(viewer: Role, posts: seq<Post>)
    ensures Subsequence(VisiblePosts(viewer, posts), posts)
  {
    if viewer == Student {
      FilterKeepsOrder(posts, (p: Post) => p.author.role == Teacher || p.author.role == Admin);
    } else {
      SubsequenceRefl(posts);
    }
  }

  lemma {:induction false} SubsequenceRefl<T>(s: seq<T>)
    ensures Subsequence(s, s)
    decreases |s|
  {
    if s != [] {
      SubsequenceRefl(s[1..]);
    }
  }

  function PostItems(posts: seq<Post>): (r: seq<FeedItem>)
    ensures |r| == |posts| && forall i :: 0 <= i < |posts| ==> r[i] == PostItem(posts[i])
  {
    seq(|posts|, i requires 0 <= i < |posts| => PostItem(posts[i]))
  }

  function BroadcastItems(broadcasts: seq<Broadcast>): (r: seq<FeedItem>)
    ensures |r| == |broadcasts| && forall i :: 0 <= i < |broadcasts| ==> r[i] == BroadcastItem(broadcasts[i])
  {
    seq(|broadcasts|, i requires 0 <= i < |broadcasts| => BroadcastItem(broadcasts[i]))
  }

  // ------------------------------------------------------------- ordering

  /** 0 for a pinned broadcast, 1 for everything else. */
  function Rank(item: FeedItem, cutoff: int): nat {
    if IsPinned(item, cutoff) then 0 else 1
  }

  /** The comparator: pinned broadcasts first, then newest first. */
  predicate Before(a: FeedItem, b: FeedItem, cutoff: int) {
    Rank(a, cutoff) < Rank(b, cutoff) ||
    (Rank(a, cutoff) == Rank(b, cutoff) && a.Timestamp() >= b.Timestamp())
  }

  predicate Sorted(s: seq<FeedItem>, cutoff: int) {
    forall i, j :: 0 <= i < j < |s| ==> Before(s[i], s[j], cutoff)
  }

  /** x placed before the first item it may precede. */
  function InsertSorted(x: FeedItem, s: seq<FeedItem>, cutoff: int): (r: seq<FeedItem>)
    ensures multiset(r) == multiset(s) + multiset{x}
    ensures Sorted(s, cutoff) ==> Sorted(r, cutoff)
  {
    if s == [] || Before(x, s[0], cutoff) then
      assert Sorted(s, cutoff) ==> Sorted([x] + s, cutoff) by {
        if Sorted(s, cutoff) {
          LeadBeforeAll(x, s, cutoff);
          ConsSorted(x, s, cutoff);
        }
      }
      [x] + s
    else
      var rest := InsertSorted(x, s[1..], cutoff);
      assert s == [s[0]] + s[1..];
      assert Sorted(s, cutoff) ==> Sorted([s[0]] + rest, cutoff) by {
        if Sorted(s, cutoff) {
          HeadBeforeRest(s, cutoff);
          forall y | y in rest ensures Before(s[0], y, cutoff) {
            assert y in multiset(rest);
          }
          ConsSorted(s[0], rest, cutoff);
        }
      }
      [s[0]] + rest
  }

  /** An item that may precede the head of a sorted list may precede all of it. */
  lemma LeadBeforeAll(x: FeedItem, s: seq<FeedItem>, cutoff: int)
    requires Sorted(s, cutoff) && (s == [] || Before(x, s[0], cutoff))
    ensures forall y :: y in s ==> Before(x, y, cutoff)
  {
    forall y | y in s ensures Before(x, y, cutoff) {
      var j :| 0 <= j < |s| && s[j] == y;
      assert j == 0 || Before(s[0], s[j], cutoff);
    }
  }

  lemma HeadBeforeRest(s: seq<FeedItem>, cutoff: int)
    requires s != [] && Sorted(s, cutoff)
    ensures forall y :: y in multiset(s[1..]) ==> Before(s[0], y, cutoff)
  {
    forall y | y in multiset(s[1..]) ensures Before(s[0], y, cutoff) {
      var j :| 0 <= j < |s[1..]| && s[1..][j] == y;
      assert s[j + 1] == y;
    }
  }

  lemma ConsSorted(h: FeedItem, rest: seq<FeedItem>, cutoff: int)
    requires Sorted(rest, cutoff) && forall y :: y in rest ==> Before(h, y, cutoff)
    ensures Sorted([h] + rest, cutoff)
  {
    forall i, j | 0 <= i < j < |[h] + rest| ensures Before(([h] + rest)[i], ([h] + rest)[j], cutoff) {
      if i == 0 {
        assert rest[j - 1] in rest;
      }
    }
  }

  /** `combinedFeed.sort(...)`: the items in comparator order. */
  function SortFeed(s: seq<FeedItem>, cutoff: int): (r: seq<FeedItem>)
    ensures multiset(r) == multiset(s)
    ensures Sorted(r, cutoff)
  {
    if s == [] then []
    else
      assert s == [s[0]] + s[1..];
      InsertSorted(s[0], SortFeed(s[1..], cutoff), cutoff)
  }

  /** The items the comparator ranks equal to one with this rank and timestamp. */
  function Tied(cutoff: int, rank: nat, ts: int): FeedItem -> bool {
    (y: FeedItem) => Rank(y, cutoff) == rank && y.Timestamp() == ts
  }

  /** Inserting x leaves each group of tied items as it was, x first in its own. */
  lemma {:induction false} InsertSortedStable(x: FeedItem, t: seq<FeedItem>, cutoff: int, rank: nat, ts: int)
    requires Sorted(t, cutoff)
    ensures Filter(InsertSorted(x, t, cutoff), Tied(cutoff, rank, ts))
         == (if Tied(cutoff, rank, ts)(x) then [x] else []) + Filter(t, Tied(cutoff, rank, ts))
    decreases |t|
  {
    var p := Tied(cutoff, rank, ts);
    if t == [] || Before(x, t[0], cutoff) {
      FilterCons(x, t, p);
    } else {
      var rest := InsertSorted(x, t[1..], cutoff);
      assert InsertSorted(x, t, cutoff) == [t[0]] + rest;
      SortedTail(t, cutoff);
      InsertSortedStable(x, t[1..], cutoff, rank, ts);
      FilterCons(t[0], rest, p);
      assert t == [t[0]] + t[1..];
      FilterCons(t[0], t[1..], p);
      TiedBefore(x, t[0], cutoff, rank, ts);
      SwapSingles(if p(t[0]) then [t[0]] else [], if p(x) then [x] else [], Filter(t[1..], p));
    }
  }

  lemma SortedTail(t: seq<FeedItem>, cutoff: int)
    requires t != [] && Sorted(t, cutoff)
    ensures Sorted(t[1..], cutoff)
  {
    forall i, j | 0 <= i < j < |t[1..]| ensures Before(t[1..][i], t[1..][j], cutoff) {
      assert t[1..][i] == t[i + 1] && t[1..][j] == t[j + 1];
    }
  }

  /** Two tied items may precede each other either way. */
  lemma TiedBefore(a: FeedItem, b: FeedItem, cutoff: int, rank: nat, ts: int)
    ensures Tied(cutoff, rank, ts)(a) && Tied(cutoff, rank, ts)(b) ==> Before(a, b, cutoff)
  {
  }

  /** The feed sort is stable, as `Array.prototype.sort` is: items the
    * comparator ranks equal keep their input order. */
  lemma {:induction false} SortFeedStable(s: seq<FeedItem>, cutoff: int, rank: nat, ts: int)
    ensures Filter(SortFeed(s, cutoff), Tied(cutoff, rank, ts)) == Filter(s, Tied(cutoff, rank, ts))
    decreases |s|
  {
    if s != [] {
      SortFeedStable(s[1..], cutoff, rank, ts);
      InsertSortedStable(s[0], SortFeed(s[1..], cutoff), cutoff, rank, ts);
      assert s == [s[0]] + s[1..];
      FilterCons(s[0], s[1..], Tied(cutoff, rank, ts));
    }
  }

  /** The feed the page loads: the visible posts and every broadcast,
    * whatever its audience, sorted with the cutoff 24 hours before now. */
  function LoadFeed(viewer: Role, posts: seq<Post>, broadcasts: seq<Broadcast>, now: int): seq<FeedItem> {
    SortFeed(PostItems(VisiblePosts(viewer, posts)) + BroadcastItems(broadcasts), now - DayMs)
  }

  /** What the loaded feed holds: every broadcast, and exactly the posts the
    * viewer may see. */
  lemma LoadFeedContents(viewer: Role, posts: seq<Post>, broadcasts: seq<Broadcast>, now: int)
    ensures forall b :: b in broadcasts ==> BroadcastItem(b) in LoadFeed(viewer, posts, broadcasts, now)
    ensures forall p :: PostItem(p) in LoadFeed(viewer, posts, broadcasts, now) <==>
      p in posts && (viewer == Student ==> p.author.role != Student)
    ensures |LoadFeed(viewer, posts, broadcasts, now)| == |VisiblePosts(viewer, posts)| + |broadcasts|
  {
    var visible := VisiblePosts(viewer, posts);
    var items := PostItems(visible) + BroadcastItems(broadcasts);
    var feed := LoadFeed(viewer, posts, broadcasts, now);
    assert multiset(feed) == multiset(items);
    ItemsHoldBroadcasts(visible, broadcasts);
    ItemsHoldPosts(visible, broadcasts);
    forall x ensures x in feed <==> x in multiset(items) {
      assert x in feed <==> x in multiset(feed);
    }
    assert |feed| == |multiset(feed)| == |items|;
  }

  lemma ItemsHoldBroadcasts(visible: seq<Post>, broadcasts: seq<Broadcast>)
    ensures forall b :: b in broadcasts ==> BroadcastItem(b) in multiset(PostItems(visible) + BroadcastItems(broadcasts))
  {
    var items := PostItems(visible) + BroadcastItems(broadcasts);
    forall b | b in broadcasts ensures BroadcastItem(b) in multiset(items) {
      var i :| 0 <= i < |broadcasts| && broadcasts[i] == b;
      assert items[|visible| + i] == BroadcastItem(b);
    }
  }

  lemma ItemsHoldPosts(visible: seq<Post>, broadcasts: seq<Broadcast>)
    ensures forall p :: PostItem(p) in multiset(PostItems(visible) + BroadcastItems(broadcasts)) <==> p in visible
  {
    var items := PostItems(visible) + BroadcastItems(broadcasts);
    forall p ensures PostItem(p) in multiset(items) <==> p in visible {
      if p in visible {
        var i :| 0 <= i < |visible| && visible[i] == p;
        assert items[i] == PostItem(p);
      }
      if PostItem(p) in multiset(items) {
        var i :| 0 <= i < |items| && items[i] == PostItem(p);
        assert i < |visible|;
        assert visible[i] == p;
      }
    }
  }

  /** In a sorted feed the pinned broadcasts form a prefix and items of the
    * same rank go newest first. */
  lemma PinnedFirst(s: seq<FeedItem>, cutoff: int, i: nat, j: nat)
    requires Sorted(s, cutoff) && i < j < |s|
    ensures IsPinned(s[j], cutoff) ==> IsPinned(s[i], cutoff)
    ensures IsPinned(s[i], cutoff) == IsPinned(s[j], cutoff) ==> s[i].Timestamp() >= s[j].Timestamp()
  {
    assert Before(s[i], s[j], cutoff);
  }

  // ---------------------------------------------------------- a new post

  /** The forEach over the feed that remembers the index of the last pinned
    * broadcast, or -1 when there is none. */
  method LastPinnedIndex(feed: seq<FeedItem>, cutoff: int) returns (last: int)
    ensures -1 <= last < |feed|
    ensures last >= 0 ==> IsPinned(feed[last], cutoff)
    ensures forall i :: last < i < |feed| ==> !IsPinned(feed[i], cutoff)
  {
    last := -1;
    var index := 0;
    while index < |feed|
      invariant 0 <= index <= |feed|
      invariant -1 <= last < index
      invariant last >= 0 ==> IsPinned(feed[last], cutoff)
      invariant forall i :: last < i < index ==> !IsPinned(feed[i], cutoff)
    {
      if IsPinned(feed[index], cutoff) {
        last := index;
      }
      index := index + 1;
    }
  }

  /** The post handleCreatePost builds: untrimmed content, no likes, no comments. */
  function NewPost(id: string, author: User, content: string, now: int): Post {
    Post(id, author, content, now, 0, 0, None)
  }

  /** `splice(last + 1, 0, item)`. */
  function InsertAt(feed: seq<FeedItem>, last: int, item: FeedItem): (r: seq<FeedItem>)
    requires -1 <= last < |feed|
    ensures |r| == |feed| + 1 && r[last + 1] == item
    ensures RemoveAt(r, last + 1) == feed
    ensures forall i :: 0 <= i <= last ==> r[i] == feed[i]
    ensures forall i :: last + 1 < i < |r| ==> r[i] == feed[i - 1]
  {
    var r := feed[..last + 1] + [item] + feed[last + 1..];
    assert r[..last + 1] + r[last + 2..] == feed;
    r
  }

  /** Inserted after the last pinned broadcast, a post that is not older than
    * anything in a sorted feed leaves the feed sorted: it lands after the
    * pinned block and before every older item. */
  lemma InsertKeepsSorted(feed: seq<FeedItem>, cutoff: int, last: int, post: Post)
    requires Sorted(feed, cutoff)
    requires -1 <= last < |feed|
    requires last >= 0 ==> IsPinned(feed[last], cutoff)
    requires forall i :: last < i < |feed| ==> !IsPinned(feed[i], cutoff)
    requires forall i :: 0 <= i < |feed| ==> feed[i].Timestamp() <= post.timestamp
    ensures Sorted(feed[..last + 1] + [PostItem(post)] + feed[last + 1..], cutoff)
  {
    var item := PostItem(post);
    PinnedBlockBefore(feed, cutoff, last, item);
    OlderAfter(feed, cutoff, last, post);
    SortedAround(feed, last + 1, item, cutoff);
  }

  /** Everything up to the last pinned broadcast is pinned, so it precedes a post. */
  lemma PinnedBlockBefore(feed: seq<FeedItem>, cutoff: int, last: int, item: FeedItem)
    requires Sorted(feed, cutoff) && -1 <= last < |feed|
    requires last >= 0 ==> IsPinned(feed[last], cutoff)
    requires item.PostItem?
    ensures forall i :: 0 <= i <= last ==> Before(feed[i], item, cutoff)
  {
    forall i | 0 <= i <= last ensures Before(feed[i], item, cutoff) {
      if i < last {
        PinnedFirst(feed, cutoff, i, last);
      }
    }
  }

  /** Past the last pinned broadcast every item is unpinned and no newer than the post. */
  lemma OlderAfter(feed: seq<FeedItem>, cutoff: int, last: int, post: Post)
    requires -1 <= last < |feed|
    requires forall i :: last < i < |feed| ==> !IsPinned(feed[i], cutoff)
    requires forall i :: 0 <= i < |feed| ==> feed[i].Timestamp() <= post.timestamp
    ensures forall j :: last < j < |feed| ==> Before(PostItem(post), feed[j], cutoff)
  {
  }

  /** A sorted feed with an item that fits between its first k items and the rest. */
  lemma SortedAround(feed: seq<FeedItem>, k: nat, x: FeedItem, cutoff: int)
    requires Sorted(feed, cutoff) && k <= |feed|
    requires forall i :: 0 <= i < k ==> Before(feed[i], x, cutoff)
    requires forall j :: k <= j < |feed| ==> Before(x, feed[j], cutoff)
    ensures Sorted(feed[..k] + [x] + feed[k..], cutoff)
  {
    var r := feed[..k] + [x] + feed[k..];
    forall i, j | 0 <= i < j < |r| ensures Before(r[i], r[j], cutoff) {
      var i' := if i < k then i else i - 1;
      var j' := if j < k then j else j - 1;
      assert i != k ==> r[i] == feed[i'];
      assert j != k ==> r[j] == feed[j'];
    }
  }

  /** The home page's feed state. */
  class HomePage {
    var feedItems: seq<FeedItem>
    var isLoading: bool
    var createPostModalOpen: bool

    constructor ()
      ensures feedItems == [] && isLoading && !createPostModalOpen
    {
      feedItems := [];
      isLoading := true;
      createPostModalOpen := false;
    }

    /** The delayed load; without a user nothing happens. */
    method Load(viewer: Option<User>, posts: seq<Post>, broadcasts: seq<Broadcast>, now: int)
      modifies this
      ensures viewer.None? ==> feedItems == old(feedItems) && isLoading == old(isLoading)
      ensures viewer.Some? ==> feedItems == LoadFeed(viewer.value.role, posts, broadcasts, now) && !isLoading
      ensures createPostModalOpen == old(createPostModalOpen)
    {
      if viewer.None? {
        return;
      }
      feedItems := LoadFeed(viewer.value.role, posts, broadcasts, now);
      isLoading := false;
    }

    /** The compose card is offered to teachers and administrators only. */
    method OpenComposer(viewer: User)
      modifies this
      ensures createPostModalOpen == (old(createPostModalOpen) || viewer.role != Student)
      ensures feedItems == old(feedItems) && isLoading == old(isLoading)
    {
      if viewer.role != Student {
        createPostModalOpen := true;
      }
    }

    /** handleCreatePost: a blank post or a missing user changes nothing;
      * otherwise the post goes right after the last pinned broadcast and
      * the modal closes. */
    method CreatePost(content: string, author: Option<User>, id: string, now: int)
      modifies this
      ensures IsBlank(content) || author.None? ==> feedItems == old(feedItems) && createPostModalOpen == old(createPostModalOpen)
      ensures !IsBlank(content) && author.Some? ==>
        |feedItems| == |old(feedItems)| + 1 && !createPostModalOpen &&
        (exists last :: -1 <= last < |old(feedItems)| &&
          feedItems == InsertAt(old(feedItems), last, PostItem(NewPost(id, author.value, content, now))) &&
          (last >= 0 ==> IsPinned(old(feedItems)[last], now - DayMs)) &&
          (forall i :: last < i < |old(feedItems)| ==> !IsPinned(old(feedItems)[i], now - DayMs)))
      ensures isLoading == old(isLoading)
    {
      if IsBlank(content) || author.None? {
        return;
      }
      var last := LastPinnedIndex(feedItems, now - DayMs);
      feedItems := InsertAt(feedItems, last, PostItem(NewPost(id, author.value, content, now)));
      createPostModalOpen := false;
    }
  }

  // ------------------------------------------------------------ like button

  /** A post card's like state, starting unliked at the post's count. */
  class LikeButton {
    const post: Post
    var isLiked: bool
    var likeCount: int

    /** The shown count is the post's own count, plus one while liked. */
    predicate Valid()
      reads this
    {
      likeCount == post.likes + (if isLiked then 1 else 0)
    }

    constructor (p: Post)
      ensures post == p && !isLiked && likeCount == p.likes && Valid()
    {
      post := p;
      isLiked := false;
      likeCount := p.likes;
    }

    /** handleLike: liking adds one, unliking takes it back, so the count
      * never strays from the post's count by more than this viewer's like. */
    method Toggle()
      requires Valid()
      modifies this
      ensures Valid()
      ensures isLiked == !old(isLiked)
      ensures likeCount == (if old(isLiked) then old(likeCount) - 1 else old(likeCount) + 1)
    {
      likeCount := if isLiked then likeCount - 1 else likeCount + 1;
      isLiked := !isLiked;
    }
  }
}
