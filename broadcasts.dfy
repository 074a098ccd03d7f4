// The broadcast page: its history (newest first), the compose form and the
// send action.

module Broadcasts {
  import opened Common
  import opened Domain
  import Sorting

  /** The comparator `b.timestamp - a.timestamp` sorts ascending by this key. */
  function Age(b: Broadcast): int {
    -b.timestamp
  }

  predicate NewestFirst(bs: seq<Broadcast>) {
    forall i, j :: 0 <= i < j < |bs| ==> bs[i].timestamp >= bs[j].timestamp
  }

  /** The initial history: the seed broadcasts, newest first. */
  function SortNewestFirst(bs: seq<Broadcast>): (r: seq<Broadcast>)
    ensures multiset(r) == multiset(bs)
    ensures NewestFirst(r)
  {
    var r := Sorting.SortBy(bs, Age);
    assert forall i, j :: 0 <= i < j < |r| ==> Age(r[i]) <= Age(r[j]);
    r
  }

  /** `sort` is stable: broadcasts with the same timestamp keep their order. */
  lemma SortNewestFirstStable(bs: seq<Broadcast>, k: int)
    ensures Filter(SortNewestFirst(bs), Sorting.KeyIs(Age, k)) == Filter(bs, Sorting.KeyIs(Age, k))
  {
    Sorting.SortByStable(bs, Age, k);
  }

  /** isFormIncomplete: the send and preview buttons are disabled exactly then. */
  predicate FormIncomplete(title: string, content: string) {
    IsBlank(title) || IsBlank(content)
  }

  /** The broadcast handleSendBroadcast would create: none when the form is
    * incomplete or nobody is signed in; otherwise the fields exactly as
    * typed (untrimmed), from the user, to the chosen audience. */
  function NewBroadcast(title: string, content: string, target: Audience, user: Option<User>, id: string, now: int):
    (r: Option<Broadcast>)
    ensures r.None? <==> FormIncomplete(title, content) || user.None?
    ensures r.Some? ==> (r.value.title == title && r.value.content == content &&
                         r.value.author == user.value && r.value.target == target && r.value.timestamp == now)
    ensures r.Some? ==> r.value.id == id
  {
    if IsBlank(title) || IsBlank(content) || user.None? then None
    else Some(Broadcast(id, title, content, user.value, target, now))
  }

  /** A broadcast sent now, prepended to a history of earlier broadcasts,
    * keeps the history newest first. */
  lemma PrependKeepsNewestFirst(bs: seq<Broadcast>, b: Broadcast)
    requires NewestFirst(bs)
    requires forall i :: 0 <= i < |bs| ==> bs[i].timestamp <= b.timestamp
    ensures NewestFirst([b] + bs)
  {
    forall i, j | 0 <= i < j < |[b] + bs| ensures ([b] + bs)[i].timestamp >= ([b] + bs)[j].timestamp {
      if i > 0 {
        assert ([b] + bs)[i] == bs[i - 1] && ([b] + bs)[j] == bs[j - 1];
      }
    }
  }

  class BroadcastPage {
    var broadcasts: seq<Broadcast>
    var title: string
    var content: string
    var target: Audience

    constructor (seed: seq<Broadcast>)
      ensures broadcasts == SortNewestFirst(seed)
      ensures title == [] && content == [] && target == Everyone
    {
      broadcasts := SortNewestFirst(seed);
      title := [];
      content := [];
      target := Everyone;
    }

    method SetFields(title: string, content: string, target: Audience)
      modifies this
      ensures this.title == title && this.content == content && this.target == target
      ensures broadcasts == old(broadcasts)
    {
      this.title := title;
      this.content := content;
      this.target := target;
    }

    /** handleSendBroadcast: refused without a change when the form is
      * incomplete or nobody is signed in; otherwise the broadcast goes on
      * top and the form is cleared to its defaults. */
    method Send(user: Option<User>, id: string, now: int)
      modifies this
      ensures var b := NewBroadcast(old(title), old(content), old(target), user, id, now);
        if b.None? then
          broadcasts == old(broadcasts) && title == old(title) && content == old(content) && target == old(target)
        else
          broadcasts == [b.value] + old(broadcasts) && title == [] && content == [] && target == Everyone
    {
      var b := NewBroadcast(title, content, target, user, id, now);
      if b.None? {
        return;
      }
      broadcasts := [b.value] + broadcasts;
      title := [];
      content := [];
      target := Everyone;
    }
  }
}
