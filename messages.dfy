// The direct-messages page: its conversation list (direct conversations
// only), sending and deleting messages, the delete control on own messages,
// and the create-group dialog that feeds the groups list.

module Messages {
  import opened Common
  import opened Domain
  import Groups

  /** The page starts from the direct conversations only. */
  function DirectOnly(all: seq<Conversation>): (r: seq<Conversation>)
    ensures forall c :: c in r <==> c in all && !c.isGroup
    ensures FilteredFrom(r, all, (c: Conversation) => !c.isGroup)
  {
    var direct := (c: Conversation) => !c.isGroup;
    FilterIsFiltered(all, direct);
    Filter(all, direct)
  }

  /** The message handleSendMessage builds: from the current user, already read. */
  function NewMessage(id: string, sender: User, text: string, now: int): Message {
    Message(id, Some(sender), text, now, true)
  }

  /** Appends msg to every conversation with the id; the rest are untouched. */
  function SendTo(convs: seq<Conversation>, convId: string, msg: Message): (r: seq<Conversation>)
    ensures |r| == |convs|
    ensures forall i :: 0 <= i < |convs| && convs[i].id != convId ==> r[i] == convs[i]
    ensures forall i :: 0 <= i < |convs| && convs[i].id == convId ==>
      r[i] == convs[i].(messages := convs[i].messages + [msg])
  {
    if convs == [] then []
    else
      [if convs[0].id == convId then convs[0].(messages := convs[0].messages + [msg]) else convs[0]]
      + SendTo(convs[1..], convId, msg)
  }

  /** Removes the messages with msgId from every conversation with convId. */
  function DeleteFrom(convs: seq<Conversation>, convId: string, msgId: string): (r: seq<Conversation>)
    ensures |r| == |convs|
    ensures forall i :: 0 <= i < |convs| && convs[i].id != convId ==> r[i] == convs[i]
    ensures forall i :: 0 <= i < |convs| && convs[i].id == convId ==>
      r[i].id == convs[i].id && r[i].participants == convs[i].participants &&
      r[i].unreadCount == convs[i].unreadCount && r[i].isGroup == convs[i].isGroup &&
      (forall m :: m in r[i].messages <==> m in convs[i].messages && m.id != msgId) &&
      FilteredFrom(r[i].messages, convs[i].messages, (m: Message) => m.id != msgId)
  {
    if convs == [] then []
    else
      var keep := (m: Message) => m.id != msgId;
      FilterIsFiltered(convs[0].messages, keep);
      [if convs[0].id == convId
       then convs[0].(messages := Filter(convs[0].messages, keep))
       else convs[0]]
      + DeleteFrom(convs[1..], convId, msgId)
  }

  /** Sending to an unknown conversation changes nothing, and a send never
    * touches the unread counters, which are only read for display. */
  lemma SendKeepsCounters(convs: seq<Conversation>, convId: string, msg: Message)
    ensures forall i :: 0 <= i < |convs| ==> SendTo(convs, convId, msg)[i].unreadCount == convs[i].unreadCount
    ensures (forall i :: 0 <= i < |convs| ==> convs[i].id != convId) ==> SendTo(convs, convId, msg) == convs
  {
  }

  /** A sent message is the last one of its conversation. */
  lemma SentIsLast(convs: seq<Conversation>, convId: string, id: string, sender: User, text: string, now: int, i: nat)
    requires i < |convs| && convs[i].id == convId
    ensures var ms := SendTo(convs, convId, NewMessage(id, sender, text, now))[i].messages;
      |ms| == |convs[i].messages| + 1 && ms[|ms| - 1].sender == Some(sender) && ms[|ms| - 1].read
  {
  }

  /** The conversation view passes a delete handler only for messages whose
    * sender is the current user; a system message has none. */
  predicate DeleteOffered(msg: Message, user: User) {
    msg.sender.Some? && msg.sender.value.id == user.id
  }

  /** MessageBubble renders its delete control only for an own message that
    * came with a handler. */
  predicate ShowDelete(isOwnMessage: bool, hasHandler: bool) {
    isOwnMessage && hasHandler
  }

  /** In a conversation the control appears exactly on own messages. */
  lemma DeleteOnlyOwn(msg: Message, user: User)
    ensures ShowDelete(DeleteOffered(msg, user), DeleteOffered(msg, user)) <==>
      (msg.sender.Some? && msg.sender.value.id == user.id)
    ensures msg.sender.None? ==> !ShowDelete(DeleteOffered(msg, user), DeleteOffered(msg, user))
  {
  }

  datatype DeleteRequest = DeleteRequest(convId: string, msgId: string)

  class MessagesPage {
    var conversations: seq<Conversation>
    var groups: seq<Group>
    var messageToDelete: Option<DeleteRequest>

    constructor (seedConversations: seq<Conversation>, seedGroups: seq<Group>)
      ensures conversations == DirectOnly(seedConversations) && groups == seedGroups
      ensures messageToDelete == None
    {
      conversations := DirectOnly(seedConversations);
      groups := seedGroups;
      messageToDelete := None;
    }

    /** handleSendMessage. */
    method Send(convId: string, user: User, text: string, id: string, now: int)
      modifies this
      ensures conversations == SendTo(old(conversations), convId, NewMessage(id, user, text, now))
      ensures groups == old(groups) && messageToDelete == old(messageToDelete)
    {
      conversations := SendTo(conversations, convId, NewMessage(id, user, text, now));
    }

    method RequestDelete(convId: string, msgId: string)
      modifies this
      ensures messageToDelete == Some(DeleteRequest(convId, msgId))
      ensures conversations == old(conversations) && groups == old(groups)
    {
      messageToDelete := Some(DeleteRequest(convId, msgId));
    }

    /** handleConfirmDelete: without a pending request nothing happens. */
    method ConfirmDelete()
      modifies this
      ensures messageToDelete == None && groups == old(groups)
      ensures old(messageToDelete).None? ==> conversations == old(conversations)
      ensures old(messageToDelete).Some? ==>
        conversations == DeleteFrom(old(conversations), old(messageToDelete).value.convId, old(messageToDelete).value.msgId)
    {
      if messageToDelete.None? {
        return;
      }
      var req := messageToDelete.value;
      conversations := DeleteFrom(conversations, req.convId, req.msgId);
      messageToDelete := None;
    }

    /** handleCreateGroup: the new group goes first. */
    method CreateGroup(id: string, name: string, members: seq<User>, creator: User)
      modifies this
      ensures groups == [Groups.NewGroup(id, name, members, creator.id)] + old(groups)
      ensures conversations == old(conversations) && messageToDelete == old(messageToDelete)
    {
      groups := [Groups.NewGroup(id, name, members, creator.id)] + groups;
    }
  }

  /** The create-group dialog of the messages page. Unlike the one on the
    * groups page it does not reset on submit; it resets whenever it closes. */
  class GroupDialog {
    var groupName: string
    var selected: seq<User>
    const creator: User

    predicate Valid()
      reads this
    {
      creator in selected
    }

    constructor (creator: User)
      ensures this.creator == creator && groupName == [] && selected == [creator] && Valid()
    {
      this.creator := creator;
      groupName := [];
      selected := [creator];
    }

    method EditName(value: string)
      modifies this
      ensures groupName == value && selected == old(selected)
    {
      groupName := value;
    }

    /** The creator's checkbox is disabled, so only other users are toggled. */
    method Toggle(u: User)
      requires Valid() && u.id != creator.id
      modifies this
      ensures selected == Groups.ToggleSelected(old(selected), u) && groupName == old(groupName) && Valid()
    {
      selected := Groups.ToggleSelected(selected, u);
    }

    method Submit() returns (created: Option<(string, seq<User>)>)
      ensures Groups.CanCreate(groupName, selected) ==> created == Some((groupName, selected))
      ensures !Groups.CanCreate(groupName, selected) ==> created == None
    {
      if Groups.CanCreate(groupName, selected) {
        created := Some((groupName, selected));
      } else {
        created := None;
      }
    }

    method Close()
      modifies this
      ensures groupName == [] && selected == [creator] && Valid()
    {
      groupName := [];
      selected := [creator];
    }
  }

  /** A group created from the dialog is valid, has its creator as sole admin
    * and shows up among the creator's groups. */
  lemma CreatedGroupListed(groups: seq<Group>, id: string, name: string, members: seq<User>, creator: User)
    requires creator in members
    ensures var g := Groups.NewGroup(id, name, members, creator.id);
      Groups.GroupValid(g) && g in Groups.UserGroups([g] + groups, creator.id)
  {
    Groups.NewGroupValid(id, name, members, creator);
  }
}
