// The group store of the groups page: group settings (member actions,
// leaving, renaming), sending and deleting group messages, adding members,
// and the create-group form. Each handler builds a new Group value and hands
// it to the page, which replaces the stored group with the same id.

module Groups {
  import opened Common
  import opened Domain

  // ------------------------------------------------------------ invariant

  /** Every admin id belongs to a member. */
  predicate AdminsAreMembers(g: Group) {
    forall a :: a in g.admins ==> HasMember(g.members, a)
  }

  /** A group with members always has an admin. */
  predicate HasAdmin(g: Group) {
    g.members != [] ==> g.admins != []
  }

  predicate GroupValid(g: Group) {
    AdminsAreMembers(g) && HasAdmin(g)
  }

  predicate IsAdmin(g: Group, id: UserId) {
    id in g.admins
  }

  /** `members.filter(m => m.id !== id)`. */
  function RemoveMember(members: seq<User>, id: UserId): (r: seq<User>)
    ensures |r| <= |members|
    ensures forall u :: u in r <==> u in members && u.id != id
    ensures !HasMember(r, id)
    ensures forall x :: x != id ==> (HasMember(r, x) <==> HasMember(members, x))
    ensures FilteredFrom(r, members, (u: User) => u.id != id)
  {
    var keep := (u: User) => u.id != id;
    FilterIsFiltered(members, keep);
    Filter(members, keep)
  }

  /** The first remaining member is the first member, in list order, whose
    * id is not the removed one. */
  lemma RemoveMemberFirst(members: seq<User>, id: UserId)
    requires RemoveMember(members, id) != []
    ensures exists k :: 0 <= k < |members| && RemoveMember(members, id)[0] == members[k] &&
                        members[k].id != id && forall j :: 0 <= j < k ==> members[j].id == id
  {
    var keep := (u: User) => u.id != id;
    var k := FilterFirst(members, keep);
    assert keep(members[k]);
  }

  // ------------------------------------------------------ member actions

  datatype MemberAction = Remove | Promote | Demote

  /** handleMemberAction: a confirmed Remove drops the member from both lists,
    * Promote appends the id to the admins without a duplicate check, Demote
    * drops every occurrence of the id from the admins. A declined Remove
    * yields a copy of the group. Nothing but members and admins changes. */
  function ApplyMemberAction(g: Group, memberId: UserId, action: MemberAction, confirmed: bool): (r: Group)
    ensures r.id == g.id && r.name == g.name && r.avatar == g.avatar
    ensures r.messages == g.messages && r.description == g.description
    ensures action == Remove && !confirmed ==> r == g
    ensures action == Remove && confirmed ==> !HasMember(r.members, memberId)
    ensures action == Remove && confirmed ==>
      forall u :: u in r.members <==> u in g.members && u.id != memberId
    ensures action == Promote ==> r.members == g.members && r.admins == g.admins + [memberId]
    ensures action == Demote ==> r.members == g.members
    ensures (action == Remove && confirmed) || action == Demote ==>
      forall a :: a in r.admins <==> a in g.admins && a != memberId
    ensures action == Remove && confirmed ==> FilteredFrom(r.members, g.members, (u: User) => u.id != memberId)
    ensures (action == Remove && confirmed) || action == Demote ==>
      FilteredFrom(r.admins, g.admins, (a: UserId) => a != memberId)
  {
    match action
    case Remove =>
      if confirmed then g.(members := RemoveMember(g.members, memberId), admins := Without(g.admins, memberId))
      else g
    case Promote => g.(admins := g.admins + [memberId])
    case Demote => g.(admins := Without(g.admins, memberId))
  }

  /** The settings panel offers actions only to an admin, only on another
    * member: Demote for admins (disabled while there is a single admin),
    * Promote for the others, and Remove for everyone. */
  predicate Offered(g: Group, actor: UserId, memberId: UserId, action: MemberAction) {
    IsAdmin(g, actor) && HasMember(g.members, memberId) && memberId != actor &&
    match action
    case Remove => true
    case Promote => memberId !in g.admins
    case Demote => memberId in g.admins && |g.admins| > 1
  }

  /** Every offered member action keeps the group valid, and the acting admin
    * stays a member and an admin. */
  lemma MemberActionKeepsValid(g: Group, actor: UserId, memberId: UserId, action: MemberAction, confirmed: bool)
    requires GroupValid(g) && Offered(g, actor, memberId, action)
    ensures var r := ApplyMemberAction(g, memberId, action, confirmed);
      GroupValid(r) && IsAdmin(r, actor) && HasMember(r.members, actor)
  {
    var r := ApplyMemberAction(g, memberId, action, confirmed);
    assert HasMember(g.members, actor);
    assert actor in r.admins;
  }

  /** Promote has no duplicate check: promoting an admin lists the id twice. */
  lemma PromoteDuplicates(g: Group, memberId: UserId)
    requires memberId in g.admins
    ensures multiset(ApplyMemberAction(g, memberId, Promote, true).admins)[memberId]
      == multiset(g.admins)[memberId] + 1
  {
  }

  /** Demote undoes a Promote of a non-admin. */
  lemma DemoteUndoesPromote(g: Group, memberId: UserId)
    requires memberId !in g.admins
    ensures ApplyMemberAction(ApplyMemberAction(g, memberId, Promote, true), memberId, Demote, true) == g
  {
    WithoutAppend(g.admins, memberId);
  }

  lemma {:induction false} WithoutAppend(s: seq<UserId>, x: UserId)
    requires x !in s
    ensures Without(s + [x], x) == s
    decreases |s|
  {
    if s == [] {
      assert [x][1..] == [];
    } else {
      assert (s + [x])[1..] == s[1..] + [x];
      WithoutAppend(s[1..], x);
      assert s == [s[0]] + s[1..];
    }
  }

  // ------------------------------------------------------------ leaving

  /** handleLeaveGroup: a confirmed leave drops the caller from the members;
    * an admin caller is also dropped from the admins, and if no admin is
    * left while members remain, the first remaining member becomes the sole
    * admin. A declined leave produces no update. */
  function Leave(g: Group, actor: UserId, confirmed: bool): (r: Option<Group>)
    ensures r.None? <==> !confirmed
    ensures r.Some? ==> r.value.members == RemoveMember(g.members, actor)
    ensures r.Some? ==> r.value.id == g.id && r.value.messages == g.messages && r.value.name == g.name
    ensures r.Some? ==> r.value.avatar == g.avatar && r.value.description == g.description
    ensures r.Some? && !IsAdmin(g, actor) ==> r.value.admins == g.admins
    ensures r.Some? && IsAdmin(g, actor) && Without(g.admins, actor) != [] ==> r.value.admins == Without(g.admins, actor)
    ensures r.Some? && IsAdmin(g, actor) && Without(g.admins, actor) == [] && r.value.members != [] ==>
      r.value.admins == [r.value.members[0].id]
    ensures r.Some? && IsAdmin(g, actor) && Without(g.admins, actor) == [] && r.value.members == [] ==>
      r.value.admins == []
  {
    if !confirmed then None
    else
      var members := RemoveMember(g.members, actor);
      if !IsAdmin(g, actor) then Some(g.(members := members))
      else
        var admins := Without(g.admins, actor);
        if admins == [] && members != [] then Some(g.(members := members, admins := [members[0].id]))
        else Some(g.(members := members, admins := admins))
  }

  /** When the last admin leaves, the new admin is the earliest member in the
    * group's own order other than the leaver. */
  lemma LeaveSuccessor(g: Group, actor: UserId)
    requires IsAdmin(g, actor) && Without(g.admins, actor) == [] && RemoveMember(g.members, actor) != []
    ensures exists k :: 0 <= k < |g.members| && Leave(g, actor, true).value.admins == [g.members[k].id] &&
                        g.members[k].id != actor && forall j :: 0 <= j < k ==> g.members[j].id == actor
  {
    RemoveMemberFirst(g.members, actor);
  }

  /** Leaving keeps the group valid and the caller is gone from both lists. */
  lemma LeaveKeepsValid(g: Group, actor: UserId)
    requires GroupValid(g)
    ensures var r := Leave(g, actor, true).value;
      GroupValid(r) && !HasMember(r.members, actor) && actor !in r.admins
  {
    var r := Leave(g, actor, true).value;
    if r.members != [] {
      assert r.members[0] in r.members;
    }
  }

  // ------------------------------------------------- settings and deletion

  /** handleSaveChanges: only the name and the description are replaced. */
  function SaveSettings(g: Group, name: string, description: string): (r: Group)
    ensures r.name == name && r.description == Some(description)
    ensures r.id == g.id && r.avatar == g.avatar && r.members == g.members
    ensures r.admins == g.admins && r.messages == g.messages
  {
    g.(name := name, description := Some(description))
  }

  lemma SaveKeepsValid(g: Group, name: string, description: string)
    requires GroupValid(g)
    ensures GroupValid(SaveSettings(g, name, description))
  {
  }

  /** handleDeleteGroup shows this alert after a confirmation and does
    * nothing else. */
  function DeleteAlert(g: Group, confirmed: bool): (r: Option<string>)
    ensures r.Some? <==> confirmed
    ensures r.Some? ==> r.value == "Group \"" + g.name + "\" has been deleted."
    ensures r.Some? ==> StartsWith(r.value, "Group \"") && EndsWith(r.value, "\" has been deleted.")
  {
    if confirmed then Some("Group \"" + g.name + "\" has been deleted.") else None
  }

  // ---------------------------------------------------- messages and members

  /** handleSendMessage: one message from the sender is appended. */
  function SendToGroup(g: Group, sender: User, text: string, msgId: string, now: int): (r: Group)
    ensures r.messages == g.messages + [GroupMessage(msgId, sender, text, now)]
    ensures r.members == g.members && r.admins == g.admins && r.id == g.id && r.name == g.name
    ensures r.avatar == g.avatar && r.description == g.description
  {
    g.(messages := g.messages + [GroupMessage(msgId, sender, text, now)])
  }

  /** The add-members candidates: directory users who are not members and
    * whose lower-cased name or username contains the lower-cased term. */
  function Candidates(directory: seq<User>, g: Group, term: string): (r: seq<User>)
    ensures forall u :: u in r <==> (u in directory && !HasMember(g.members, u.id) &&
      (Contains(ToLower(u.name), ToLower(term)) || Contains(ToLower(u.username), ToLower(term))))
    ensures Subsequence(r, directory)
  {
    var keep := (u: User) => !HasMember(g.members, u.id) &&
      (Contains(ToLower(u.name), ToLower(term)) || Contains(ToLower(u.username), ToLower(term)));
    FilterKeepsOrder(directory, keep);
    Filter(directory, keep)
  }

  lemma ContainsEmpty(s: string)
    ensures Contains(s, [])
  {
  }

  /** With an empty search every non-member is a candidate, and no member ever is. */
  lemma CandidatesAreNonMembers(directory: seq<User>, g: Group, term: string)
    ensures forall u :: u in Candidates(directory, g, term) ==> !HasMember(g.members, u.id)
    ensures term == [] ==> forall u :: u in directory && !HasMember(g.members, u.id) ==> u in Candidates(directory, g, term)
  {
    if term == [] {
      forall u | u in directory && !HasMember(g.members, u.id)
        ensures u in Candidates(directory, g, term)
      {
        ContainsEmpty(ToLower(u.name));
      }
    }
  }

  /** handleAdd + handleAddMembers: the directory users whose ids were ticked
    * are appended to the members, in directory order. */
  function AddMembers(g: Group, directory: seq<User>, selected: set<UserId>): (r: Group)
    ensures |g.members| <= |r.members| && r.members[..|g.members|] == g.members
    ensures forall u :: u in r.members[|g.members|..] <==> u in directory && u.id in selected
    ensures Subsequence(r.members[|g.members|..], directory)
    ensures r.admins == g.admins && r.messages == g.messages && r.id == g.id
    ensures r.name == g.name && r.avatar == g.avatar && r.description == g.description
  {
    var ticked := (u: User) => u.id in selected;
    FilterKeepsOrder(directory, ticked);
    var r := g.(members := g.members + Filter(directory, ticked));
    assert r.members[|g.members|..] == Filter(directory, ticked);
    r
  }

  /** Adding members keeps a group the viewer belongs to valid (an empty
    * group would gain members without an admin); if only candidates were
    * ticked, no added user was already a member. */
  lemma AddMembersKeepsValid(g: Group, viewer: UserId, directory: seq<User>, selected: set<UserId>, term: string)
    requires GroupValid(g) && HasMember(g.members, viewer)
    requires forall id :: id in selected ==> exists u :: u in Candidates(directory, g, term) && u.id == id
    ensures GroupValid(AddMembers(g, directory, selected))
    ensures forall u :: u in AddMembers(g, directory, selected).members[|g.members|..] ==> !HasMember(g.members, u.id)
  {
    var r := AddMembers(g, directory, selected);
    forall a | a in r.admins ensures HasMember(r.members, a) {
      var u :| u in g.members && u.id == a;
      assert u in r.members by { assert r.members[..|g.members|] == g.members; }
    }
    forall u | u in r.members[|g.members|..] ensures !HasMember(g.members, u.id) {
      var c :| c in Candidates(directory, g, term) && c.id == u.id;
    }
  }

  // ---------------------------------------------------- create-group form

  /** handleToggleUser: a selected user is unselected, another is appended. */
  function ToggleSelected(selected: seq<User>, u: User): (r: seq<User>)
    ensures HasMember(selected, u.id) ==> !HasMember(r, u.id)
    ensures HasMember(selected, u.id) ==> FilteredFrom(r, selected, (v: User) => v.id != u.id)
    ensures !HasMember(selected, u.id) ==> r == selected + [u]
    ensures forall x :: x != u.id ==> (HasMember(r, x) <==> HasMember(selected, x))
  {
    if HasMember(selected, u.id) then RemoveMember(selected, u.id) else selected + [u]
  }

  /** Toggling the same user twice restores who is selected. */
  lemma ToggleTwice(selected: seq<User>, u: User)
    ensures forall x :: HasMember(ToggleSelected(ToggleSelected(selected, u), u), x) <==> HasMember(selected, x)
  {
    var once := ToggleSelected(selected, u);
    if !HasMember(selected, u.id) {
      assert u in once;
    } else {
      var v :| v in selected && v.id == u.id;
      assert u in ToggleSelected(once, u);
    }
  }

  /** handleSubmit's test: a non-blank name and at least two selected users. */
  predicate CanCreate(name: string, selected: seq<User>) {
    !IsBlank(name) && |selected| > 1
  }

  /** handleCreateGroup: the creator is the sole admin and there are no messages. */
  function NewGroup(id: string, name: string, members: seq<User>, creator: UserId): (r: Group)
    ensures r.admins == [creator] && r.messages == [] && r.members == members && r.name == name
    ensures r.id == id && r.avatar == "https://picsum.photos/seed/" + name + "/200" && r.description == None
  {
    Group(id, name, "https://picsum.photos/seed/" + name + "/200", members, [creator], [], None)
  }

  /** A group created from the form is valid, since the creator stays selected. */
  lemma NewGroupValid(id: string, name: string, members: seq<User>, creator: User)
    requires creator in members
    ensures GroupValid(NewGroup(id, name, members, creator.id))
  {
  }

  /** The create-group form of the groups page. The creator's own checkbox is
    * disabled, so only other users are toggled. */
  class CreateGroupForm {
    var groupName: string
    var selected: seq<User>
    const creator: User

    predicate Valid()
      reads this
    {
      creator in selected
    }

    constructor (creator: User)
      ensures this.creator == creator && groupName == [] && selected == [creator] && Valid()
    {
      this.creator := creator;
      groupName := [];
      selected := [creator];
    }

    method EditName(value: string)
      modifies this
      ensures groupName == value && selected == old(selected)
    {
      groupName := value;
    }

    method Toggle(u: User)
      requires Valid() && u.id != creator.id
      modifies this
      ensures selected == ToggleSelected(old(selected), u) && groupName == old(groupName) && Valid()
    {
      selected := ToggleSelected(selected, u);
    }

    /** A successful submit hands over the name and the selection and resets
      * the form; otherwise nothing happens. */
    method Submit() returns (created: Option<(string, seq<User>)>)
      requires Valid()
      modifies this
      ensures Valid()
      ensures CanCreate(old(groupName), old(selected)) ==>
        created == Some((old(groupName), old(selected))) && groupName == [] && selected == [creator]
      ensures !CanCreate(old(groupName), old(selected)) ==>
        created == None && groupName == old(groupName) && selected == old(selected)
    {
      if CanCreate(groupName, selected) {
        created := Some((groupName, selected));
        groupName := [];
        selected := [creator];
      } else {
        created := None;
      }
    }
  }

  // ---------------------------------------------------------- the page

  /** `groups.map(g => g.id === updated.id ? updated : g)`. */
  function Replace(groups: seq<Group>, updated: Group): (r: seq<Group>)
    ensures |r| == |groups|
    ensures forall i :: 0 <= i < |groups| ==> r[i] == (if groups[i].id == updated.id then updated else groups[i])
  {
    if groups == [] then [] else [if groups[0].id == updated.id then updated else groups[0]] + Replace(groups[1..], updated)
  }

  /** Replacing keeps the order and every group with another id; an unknown
    * id changes nothing. */
  lemma ReplaceUnknown(groups: seq<Group>, updated: Group)
    requires forall i :: 0 <= i < |groups| ==> groups[i].id != updated.id
    ensures Replace(groups, updated) == groups
  {
  }

  /** `groups.find(g => g.id === id)`. */
  function FindGroup(groups: seq<Group>, id: string): (r: Option<Group>)
    ensures r.Some? ==> r.value in groups && r.value.id == id
    ensures r.None? <==> forall i :: 0 <= i < |groups| ==> groups[i].id != id
    ensures r.Some? ==> exists i :: 0 <= i < |groups| && groups[i] == r.value &&
                                    forall j :: 0 <= j < i ==> groups[j].id != id
  {
    if groups == [] then None
    else if groups[0].id == id then Some(groups[0])
    else
      var r := FindGroup(groups[1..], id);
      if r.Some? then
        var i :| 0 <= i < |groups[1..]| && groups[1..][i] == r.value &&
                 forall j :: 0 <= j < i ==> groups[1..][j].id != id;
        assert groups[i + 1] == r.value;
        assert forall j :: 1 <= j < i + 1 ==> groups[j] == groups[1..][j - 1];
        r
      else r
  }

  /** `groups.filter(g => g.members.some(m => m.id === user.id))`. */
  function UserGroups(groups: seq<Group>, userId: UserId): (r: seq<Group>)
    ensures forall g :: g in r <==> g in groups && HasMember(g.members, userId)
    ensures Subsequence(r, groups)
  {
    var belongs := (g: Group) => HasMember(g.members, userId);
    FilterKeepsOrder(groups, belongs);
    Filter(groups, belongs)
  }

  datatype DeleteRequest = DeleteRequest(groupId: string, msgId: string)

  /** The messages with the id removed from the first group with that id. */
  function WithoutMessage(g: Group, msgId: string): (r: Group)
    ensures forall m :: m in r.messages <==> m in g.messages && m.id != msgId
    ensures FilteredFrom(r.messages, g.messages, (m: GroupMessage) => m.id != msgId)
    ensures r.members == g.members && r.admins == g.admins && r.id == g.id
    ensures r.name == g.name && r.avatar == g.avatar && r.description == g.description
  {
    var keep := (m: GroupMessage) => m.id != msgId;
    FilterIsFiltered(g.messages, keep);
    g.(messages := Filter(g.messages, keep))
  }

  predicate AllValid(groups: seq<Group>) {
    forall i :: 0 <= i < |groups| ==> GroupValid(groups[i])
  }

  class GroupsPage {
    var groups: seq<Group>
    var messageToDelete: Option<DeleteRequest>

    predicate Valid()
      reads this
    {
      AllValid(groups)
    }

    constructor (seed: seq<Group>)
      requires AllValid(seed)
      ensures groups == seed && messageToDelete == None && Valid()
    {
      groups := seed;
      messageToDelete := None;
    }

    /** handleCreateGroup: the new group goes first. */
    method CreateGroup(id: string, name: string, members: seq<User>, creator: User)
      requires Valid() && creator in members
      modifies this
      ensures groups == [NewGroup(id, name, members, creator.id)] + old(groups)
      ensures messageToDelete == old(messageToDelete) && Valid()
    {
      NewGroupValid(id, name, members, creator);
      groups := [NewGroup(id, name, members, creator.id)] + groups;
    }

    /** handleUpdateGroup. */
    method UpdateGroup(updated: Group)
      requires Valid() && GroupValid(updated)
      modifies this
      ensures groups == Replace(old(groups), updated)
      ensures messageToDelete == old(messageToDelete) && Valid()
    {
      groups := Replace(groups, updated);
    }

    /** The delete control of an own message asks for confirmation first. */
    method RequestDelete(groupId: string, msgId: string)
      modifies this
      ensures messageToDelete == Some(DeleteRequest(groupId, msgId)) && groups == old(groups)
    {
      messageToDelete := Some(DeleteRequest(groupId, msgId));
    }

    method CancelDelete()
      modifies this
      ensures messageToDelete == None && groups == old(groups)
    {
      messageToDelete := None;
    }

    /** handleConfirmDelete: the messages with that id leave the named group
      * only; an unknown group changes nothing; the request is cleared. */
    method ConfirmDelete()
      requires Valid()
      modifies this
      ensures messageToDelete == None && Valid()
      ensures old(messageToDelete).None? ==> groups == old(groups)
      ensures old(messageToDelete).Some? ==>
        var req := old(messageToDelete).value;
        match FindGroup(old(groups), req.groupId)
        case None => groups == old(groups)
        case Some(g) => groups == Replace(old(groups), WithoutMessage(g, req.msgId))
    {
      if messageToDelete.None? {
        return;
      }
      var req := messageToDelete.value;
      var found := FindGroup(groups, req.groupId);
      if found.Some? {
        var g := found.value;
        assert GroupValid(g);
        groups := Replace(groups, WithoutMessage(g, req.msgId));
      }
      messageToDelete := None;
    }
  }
}
