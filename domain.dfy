// The record shapes of types.ts. Timestamps, which the source keeps as ISO
// strings, are integer milliseconds since the epoch; display-only fields
// (avatars, cover photos, bios, follower counts) are left out.

module Domain {
  import opened Common

  datatype Role = Student | Teacher | Admin

  type UserId = string

  datatype User = User(id: UserId, name: string, username: string, email: string, role: Role)

  /** A direct message; the sender is absent for a system message. */
  datatype Message = Message(id: string, sender: Option<User>, text: string, timestamp: int, read: bool)

  datatype Conversation = Conversation(
    id: string, participants: seq<User>, messages: seq<Message>, unreadCount: int, isGroup: bool)

  datatype GroupMessage = GroupMessage(id: string, sender: User, text: string, timestamp: int)

  datatype Group = Group(
    id: string, name: string, avatar: string, members: seq<User>, admins: seq<UserId>,
    messages: seq<GroupMessage>, description: Option<string>)

  datatype Post = Post(
    id: string, author: User, content: string, timestamp: int, likes: int, comments: int,
    image: Option<string>)

  /** A calendar instant: month is 0-based as in Date.getMonth, day is 1-based. */
  datatype DateTime = DateTime(year: int, month: int, day: int, msOfDay: int)

  datatype Event = Event(
    id: string, title: string, description: string, location: string, date: DateTime,
    creator: User, attendees: seq<UserId>)

  /** `Role | 'All'`. */
  datatype Audience = Everyone | OnlyRole(role: Role)

  datatype Broadcast = Broadcast(
    id: string, title: string, content: string, author: User, target: Audience, timestamp: int)

  datatype EmailParticipant = EmailParticipant(name: string, email: string, initial: string, color: string)

  datatype Email = Email(
    id: string, sender: EmailParticipant, recipient: EmailParticipant, subject: string,
    preview: string, body: string, timestamp: int, isRead: bool)

  /** `members.map(m => m.id)`. */
  function MemberIds(members: seq<User>): (r: seq<UserId>)
    ensures |r| == |members|
    ensures forall i :: 0 <= i < |members| ==> r[i] == members[i].id
  {
    if members == [] then [] else [members[0].id] + MemberIds(members[1..])
  }

  /** `members.some(m => m.id === id)`. */
  predicate HasMember(members: seq<User>, id: UserId) {
    exists u :: u in members && u.id == id
  }

  lemma HasMemberIds(members: seq<User>, id: UserId)
    ensures HasMember(members, id) <==> id in MemberIds(members)
  {
    var ids := MemberIds(members);
    if id in ids {
      var i :| 0 <= i < |ids| && ids[i] == id;
      assert members[i] in members;
    }
    if HasMember(members, id) {
      var u :| u in members && u.id == id;
      var i :| 0 <= i < |members| && members[i] == u;
      assert ids[i] == id;
    }
  }

  /** `USERS[id]`: the directory entry with that id (the first one, should ids repeat). */
  function FindUser(directory: seq<User>, id: UserId): (r: Option<User>)
    ensures r.Some? ==> r.value in directory && r.value.id == id
    ensures r.None? <==> !HasMember(directory, id)
  {
    if directory == [] then None
    else if directory[0].id == id then Some(directory[0])
    else FindUser(directory[1..], id)
  }
}
