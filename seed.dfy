// The demo data the pages start from: the user directory, the seed
// conversations, groups and mail folders, and the invariants they satisfy.
// Times are relative to a `now` in milliseconds.

module Seed {
  import opened Common
  import opened Domain
  import Groups
  import Mailbox

  const MinuteMs := 60 * 1000
  const HourMs := 60 * MinuteMs
  const DayMs := 24 * HourMs

  const Alex := User("user-1", "Alex Johnson", "alexj", "alex.j@example.com", Student)
  const Emily := User("user-2", "Emily Reed", "ereed", "e.reed@example.com", Teacher)
  const Michael := User("user-3", "Michael Chen", "mchen", "m.chen@example.com", Admin)
  const Sophia := User("user-4", "Sophia Rodriguez", "sophia.r", "s.rodriguez@example.com", Student)
  const David := User("user-5", "David Lee", "dlee", "d.lee@example.com", Teacher)
  const Olivia := User("user-6", "Olivia Martinez", "omartinez", "o.martinez@example.com", Student)
  const James := User("user-7", "James Wilson", "jwilson", "j.wilson@example.com", Student)

  /** `Object.values(USERS)`. */
  const Users: seq<User> := [Alex, Emily, Michael, Sophia, David, Olivia, James]

  /** Every directory id is listed once, so a lookup by id is unambiguous,
    * and the demo account is there. */
  lemma DirectoryIdsDistinct()
    ensures forall i, j :: 0 <= i < j < |Users| ==> Users[i].id != Users[j].id
    ensures FindUser(Users, "user-1") == Some(Alex)
  {
    assert Users[0] == Alex;
  }

  // ------------------------------------------------------- conversations

  /** The number of messages not yet read. */
  function UnreadCount(messages: seq<Message>): (r: nat)
    ensures r <= |messages|
    ensures r == 0 <==> forall m :: m in messages ==> m.read
  {
    if messages == [] then 0
    else
      assert forall m :: m in messages[1..] ==> m in messages;
      assert messages[0] in messages;
      (if messages[0].read then 0 else 1) + UnreadCount(messages[1..])
  }

  function Conversations(now: int): seq<Conversation> {
    [StudyChat(now), LectureChat(now)]
  }

  function StudyChat(now: int): Conversation {
    Conversation("conv-1", [Alex, Sophia],
      [ Message("msg-1-1", Some(Alex), "Hey Sophia! Loved your design project.", now - 20 * MinuteMs, true),
        Message("msg-1-2", Some(Sophia), "Thanks Alex! I appreciate that. How are your studies going?", now - 19 * MinuteMs, true),
        Message("msg-1-3", Some(Alex), "Going well, just stuck on some recursion stuff for my assignment.", now - 18 * MinuteMs, false) ],
      1, false)
  }

  function LectureChat(now: int): Conversation {
    Conversation("conv-2", [Alex, Emily],
      [ Message("msg-2-1", Some(Alex), "Professor Reed, I had a question about the lecture on Monday.", now - 2 * DayMs, true),
        Message("msg-2-2", Some(Emily), "Of course, Alex. What can I help you with?", now - 2 * DayMs + 10000, true) ],
      0, false)
  }

  /** Each seed conversation's counter agrees with its unread messages. */
  lemma SeedUnreadCounts(now: int)
    ensures forall c :: c in Conversations(now) ==> c.unreadCount == UnreadCount(c.messages)
  {
    StudyChatUnread(now);
    LectureChatUnread(now);
  }

  lemma StudyChatUnread(now: int)
    ensures StudyChat(now).unreadCount == UnreadCount(StudyChat(now).messages)
  {
    var ms := StudyChat(now).messages;
    assert ms[0].read && ms[1].read && !ms[2].read;
    assert ms[2..][1..] == [];
    assert UnreadCount(ms[2..]) == 1;
    assert ms[1..][1..] == ms[2..];
    assert UnreadCount(ms[1..]) == 1;
  }

  lemma LectureChatUnread(now: int)
    ensures LectureChat(now).unreadCount == UnreadCount(LectureChat(now).messages)
  {
    var ms := LectureChat(now).messages;
    assert ms[0].read && ms[1].read;
  }

  // -------------------------------------------------------------- groups

  function SeedGroups(now: int): seq<Group> {
    [ Group("group-1", "CS Study Group", "https://picsum.photos/seed/cs-group/200",
        [Alex, Sophia, James], ["user-1"],
        [ GroupMessage("gmsg-1", Alex, "Anyone free to review data structures tonight?", now - HourMs),
          GroupMessage("gmsg-2", Sophia, "I can in about an hour!", now - 59 * MinuteMs) ],
        Some("Collaborate on computer science topics.")),
      Group("group-2", "Faculty Announcements", "https://picsum.photos/seed/faculty-group/200",
        [Emily, David, Michael], ["user-2", "user-3"],
        [ GroupMessage("gmsg-3", Emily, "Reminder: Faculty meeting tomorrow at 10 AM in the main conference room.", now - 5 * HourMs) ],
        None) ]
  }

  /** Every seed group satisfies the group invariant: its admins are members. */
  lemma SeedGroupsValid(now: int)
    ensures forall g :: g in SeedGroups(now) ==> Groups.GroupValid(g)
  {
    var gs := SeedGroups(now);
    assert Alex in gs[0].members;
    assert Emily in gs[1].members && Michael in gs[1].members;
    assert Groups.GroupValid(gs[0]);
    assert Groups.GroupValid(gs[1]);
  }

  // ---------------------------------------------------------------- mail

  const StudentColor := "bg-blue-200 text-blue-800"
  const StaffColor := "bg-green-200 text-green-800"

  /** createParticipant: name and email copied, the upper-cased first letter
    * of the name as initial, blue for students and green otherwise. */
  function CreateParticipant(user: User): (r: EmailParticipant)
    ensures r.name == user.name && r.email == user.email
    ensures user.name != [] ==> r.initial == [UpperChar(user.name[0])]
    ensures r.color == StudentColor <==> user.role == Student
    ensures r.color == StaffColor <==> user.role != Student
  {
    EmailParticipant(user.name, user.email, Mailbox.Initial(user.name),
      if user.role == Student then StudentColor else StaffColor)
  }

  const GradesPreview := "Hi Alex, the grades for the mid-term exam have been posted. Please check the student portal. Best, Prof. Reed"
  const GradesBody := "Hi Alex,\n\nThe grades for the mid-term exam have been posted. Please check the student portal.\n\nBest,\nProf. Reed"
  const MaintenancePreview := "Dear students, please be advised that the main library will be closed this weekend for scheduled maintenance."
  const MaintenanceBody := "Dear students,\n\nPlease be advised that the main library will be closed this weekend for scheduled maintenance.\n\nThank you,\nKLIAS Administration"
  const ReplyText := "Thank you, Professor. I will check them now."

  function Inbox(now: int): seq<Email> {
    var emily, michael, alex := CreateParticipant(Emily), CreateParticipant(Michael), CreateParticipant(Alex);
    [ Email("email-1", emily, alex, "Mid-term Exam Grades", GradesPreview, GradesBody, now - DayMs, false),
      Email("email-2", michael, alex, "Campus Maintenance Notification", MaintenancePreview, MaintenanceBody, now - 2 * DayMs, true) ]
  }

  function Sent(now: int): seq<Email> {
    [ Email("sent-1", CreateParticipant(Alex), CreateParticipant(Emily), "Re: Mid-term Exam Grades",
        ReplyText, ReplyText, now - 23 * HourMs, true) ]
  }

  function Trash(): seq<Email> {
    []
  }

  /** The inbox and the sent folder start with disjoint ids. */
  lemma SeedFoldersDisjoint(now: int)
    ensures forall a, b :: a in Inbox(now) && b in Sent(now) ==> a.id != b.id
  {
    var inbox, sent := Inbox(now), Sent(now);
    assert |inbox| == 2 && |sent| == 1;
    assert inbox[0].id == "email-1" && inbox[1].id == "email-2" && sent[0].id == "sent-1";
    assert "email-1"[0] != "sent-1"[0] && "email-2"[0] != "sent-1"[0];
    forall a, b | a in inbox && b in sent ensures a.id != b.id {
      assert a.id[0] == 'e' && b.id[0] == 's';
    }
  }

  /** The seed senders: the teacher's participant is green, the student's blue. */
  lemma SeedParticipantColors()
    ensures CreateParticipant(Emily).color == StaffColor
    ensures CreateParticipant(Alex).color == StudentColor
    ensures CreateParticipant(Alex).initial == "A"
  {
    assert Alex.name[0] == 'A';
  }
}
