// The mailbox page: three folders (inbox, sent, trash), the filtered list
// of the open folder, moving mail to the trash and back, permanent deletion,
// sending composed mail, replying, and the reply formatter.

module Mailbox {
  import opened Common
  import opened Domain
  import Selection

  datatype Folder = Inbox | Sent | Trash

  datatype ReadFilter = All | Unread | Read

  // -------------------------------------------------------------- folders

  /** `folder.find(e => e.id === id)`. */
  function FindEmail(folder: seq<Email>, id: string): (r: Option<Email>)
    ensures r.Some? ==> r.value in folder && r.value.id == id
    ensures r.None? <==> forall e :: e in folder ==> e.id != id
    ensures r.Some? ==> exists i :: 0 <= i < |folder| && folder[i] == r.value &&
                                    forall j :: 0 <= j < i ==> folder[j].id != id
  {
    if folder == [] then None
    else if folder[0].id == id then Some(folder[0])
    else
      var r := FindEmail(folder[1..], id);
      if r.Some? then
        var i :| 0 <= i < |folder[1..]| && folder[1..][i] == r.value &&
                 forall j :: 0 <= j < i ==> folder[1..][j].id != id;
        assert folder[i + 1] == r.value;
        assert forall j :: 1 <= j < i + 1 ==> folder[j] == folder[1..][j - 1];
        r
      else r
  }

  /** `folder.filter(e => e.id !== id)`. */
  function RemoveEmail(folder: seq<Email>, id: string): (r: seq<Email>)
    ensures forall e :: e in r <==> e in folder && e.id != id
    ensures FilteredFrom(r, folder, (e: Email) => e.id != id)
  {
    var keep := (e: Email) => e.id != id;
    FilterIsFiltered(folder, keep);
    Filter(folder, keep)
  }

  /** Removing an id the folder does not hold changes nothing. */
  lemma RemoveAbsent(folder: seq<Email>, id: string)
    requires forall e :: e in folder ==> e.id != id
    ensures RemoveEmail(folder, id) == folder
  {
    var keep := (e: Email) => e.id != id;
    FilterAll(folder, keep);
  }

  /** Moving an email between two folders: when `from` holds the id, every
    * email with it leaves `from` and the first one found goes to the front
    * of `to`; otherwise both folders stay as they are. */
  function Move(from: seq<Email>, to: seq<Email>, id: string): (r: (seq<Email>, seq<Email>))
    ensures FindEmail(from, id).None? ==> r == (from, to)
    ensures FindEmail(from, id).Some? ==>
      r == (RemoveEmail(from, id), [FindEmail(from, id).value] + to)
  {
    match FindEmail(from, id)
    case None => (from, to)
    case Some(e) => (RemoveEmail(from, id), [e] + to)
  }

  /** Trash then restore: the email comes back unchanged at the front of the
    * inbox, the rest of the inbox keeps its order, and the trash is as before. */
  lemma TrashRestoreRoundTrip(inbox: seq<Email>, trash: seq<Email>, e: Email)
    requires FindEmail(inbox, e.id) == Some(e)
    requires forall t :: t in trash ==> t.id != e.id
    ensures var (inbox1, trash1) := Move(inbox, trash, e.id);
      var (trash2, inbox2) := Move(trash1, inbox1, e.id);
      inbox2 == [e] + RemoveEmail(inbox, e.id) && trash2 == trash
  {
    var (inbox1, trash1) := Move(inbox, trash, e.id);
    assert trash1 == [e] + trash;
    assert FindEmail(trash1, e.id) == Some(e);
    var trash2 := RemoveEmail(trash1, e.id);
    assert trash2 == RemoveEmail(trash, e.id);
    RemoveAbsent(trash, e.id);
  }

  // ------------------------------------------------------------- filtering

  /** The read filter applies in the inbox only. */
  predicate PassesReadFilter(folder: Folder, filter: ReadFilter, e: Email) {
    folder != Inbox || match filter
      case Unread => !e.isRead
      case Read => e.isRead
      case All => true
  }

  /** The party searched by name: the recipient in Sent, the sender elsewhere. */
  function Counterparty(folder: Folder, e: Email): EmailParticipant {
    if folder == Sent then e.recipient else e.sender
  }

  predicate PassesSearch(folder: Folder, term: string, e: Email) {
    ToLower(term) == [] ||
    Contains(ToLower(e.subject), ToLower(term)) || Contains(ToLower(Counterparty(folder, e).name), ToLower(term))
  }

  /** filteredEmails: the open folder's emails passing both filters, in folder order. */
  function FilteredEmails(emails: seq<Email>, folder: Folder, filter: ReadFilter, term: string): (r: seq<Email>)
    ensures forall e :: e in r <==> e in emails && PassesReadFilter(folder, filter, e) && PassesSearch(folder, term, e)
  {
    Filter(Filter(emails, (e: Email) => PassesReadFilter(folder, filter, e)), (e: Email) => PassesSearch(folder, term, e))
  }

  /** Outside the inbox, and with no term, the list is the whole folder;
    * in every case it keeps the folder's order. */
  lemma FilteredKeepsFolder(emails: seq<Email>, folder: Folder, filter: ReadFilter, term: string)
    ensures folder != Inbox && term == [] ==> FilteredEmails(emails, folder, filter, term) == emails
    ensures term == [] ==> FilteredEmails(emails, folder, All, term) == emails
    ensures Subsequence(FilteredEmails(emails, folder, filter, term), emails)
  {
    var p1 := (e: Email) => PassesReadFilter(folder, filter, e);
    var p2 := (e: Email) => PassesSearch(folder, term, e);
    if term == [] {
      FilterAll(emails, p2);
      if folder != Inbox {
        FilterAll(emails, p1);
      }
      FilterAll(emails, (e: Email) => PassesReadFilter(folder, All, e));
    }
    FilterKeepsOrder(emails, p1);
    FilterKeepsOrder(Filter(emails, p1), p2);
    SubsequenceTrans(FilteredEmails(emails, folder, filter, term), Filter(emails, p1), emails);
  }

  lemma {:induction false} SubsequenceTrans(a: seq<Email>, b: seq<Email>, c: seq<Email>)
    requires Subsequence(a, b) && Subsequence(b, c)
    ensures Subsequence(a, c)
    decreases |c|
  {
    if a == [] || c == [] {
    } else if b[0] == c[0] && Subsequence(b[1..], c[1..]) {
      if a[0] == b[0] && Subsequence(a[1..], b[1..]) {
        SubsequenceTrans(a[1..], b[1..], c[1..]);
      } else {
        SubsequenceTrans(a, b[1..], c[1..]);
      }
    } else {
      SubsequenceTrans(a, b, c[1..]);
    }
  }

  // ------------------------------------------------------- sending mail

  /** `s.charAt(0).toUpperCase()`. */
  function Initial(s: string): (r: string)
    ensures |r| <= 1 && (s != [] ==> r == [UpperChar(s[0])])
  {
    if s == [] then [] else [UpperChar(s[0])]
  }

  /** `s.substring(0, n)`. */
  function Take(s: string, n: nat): (r: string)
    ensures |r| <= n && |r| <= |s| && r == s[..|r|] && (|s| >= n ==> |r| == n) && (|s| < n ==> r == s)
  {
    if |s| <= n then s else s[..n]
  }

  /** `replace(/<[^>]*>/g, '')`: every `<` that has a later `>` is removed
    * together with everything up to the first such `>`. */
  function StripTags(t: string): (r: string)
    ensures |r| <= |t|
    ensures forall c :: c in r ==> c in t
    decreases |t|
  {
    if t == [] then []
    else if t[0] == '<' && '>' in t[1..] then StripTags(AfterFirst(t[1..], '>'))
    else [t[0]] + StripTags(t[1..])
  }

  /** The text after the first occurrence of c. */
  function AfterFirst(t: string, c: char): (r: string)
    requires c in t
    ensures |r| < |t| && r == t[|t| - |r|..]
    ensures forall x :: x in r ==> x in t
  {
    if t[0] == c then t[1..] else AfterFirst(t[1..], c)
  }

  /** No `<` left in a stripped text is followed by a `>`. */
  predicate NoTag(r: string) {
    forall i, j :: 0 <= i < j < |r| && r[i] == '<' ==> r[j] != '>'
  }

  lemma {:induction false} StripTagsNoTag(t: string)
    ensures NoTag(StripTags(t))
    decreases |t|
  {
    if t == [] {
    } else if t[0] == '<' && '>' in t[1..] {
      StripTagsNoTag(AfterFirst(t[1..], '>'));
    } else {
      StripTagsNoTag(t[1..]);
      var rest := StripTags(t[1..]);
      var r := [t[0]] + rest;
      forall i, j | 0 <= i < j < |r| && r[i] == '<' ensures r[j] != '>' {
        if i == 0 {
          assert r[j] == rest[j - 1] && rest[j - 1] in rest;
        } else {
          assert r[i] == rest[i - 1] && r[j] == rest[j - 1];
        }
      }
    }
  }

  /** Text without `<` passes through the stripper unchanged. */
  lemma {:induction false} StripTagsPlain(t: string)
    requires '<' !in t
    ensures StripTags(t) == t
    decreases |t|
  {
    if t != [] {
      StripTagsPlain(t[1..]);
    }
  }

  /** The preview of a sent email: the first 100 characters, tags stripped, then "...". */
  function SendPreview(body: string): (r: string)
    ensures r == StripTags(Take(body, 100)) + "..."
    ensures EndsWith(r, "...") && |r| <= 103 && NoTag(r[..|r| - 3])
  {
    StripTagsNoTag(Take(body, 100));
    StripTags(Take(body, 100)) + "..."
  }

  /** A body whose first 100 characters hold no `<` is previewed verbatim,
    * exactly like a reply. */
  lemma SendPreviewPlain(body: string)
    requires '<' !in Take(body, 100)
    ensures SendPreview(body) == Take(body, 100) + "..."
    ensures SendPreview(body) == ReplyPreview(body)
  {
    StripTagsPlain(Take(body, 100));
  }

  /** The preview of a reply: the first 100 characters, then "...". */
  function ReplyPreview(body: string): (r: string)
    ensures EndsWith(r, "...") && |r| == (if |body| < 100 then |body| else 100) + 3
    ensures r[..|r| - 3] == body[..|r| - 3]
  {
    Take(body, 100) + "..."
  }

  const SenderColor := "bg-blue-200 text-blue-700 dark:bg-blue-800 dark:text-blue-200"
  const RecipientColor := "bg-gray-200 text-gray-700 dark:bg-gray-800 dark:text-gray-200"

  /** The signed-in user as a participant: capitalised initial, blue badge. */
  function SelfParticipant(user: User): (r: EmailParticipant)
    ensures r.name == user.name && r.email == user.email
    ensures r.initial == Initial(user.name) && r.color == SenderColor
  {
    EmailParticipant(user.name, user.email, Initial(user.name), SenderColor)
  }

  datatype ComposeData = ComposeData(to: seq<string>, cc: seq<string>, bcc: seq<string>, subject: string, body: string)

  /** handleSendEmail's new email: addressed to the first of to, cc and bcc,
    * named by the text before its '@', and already read. */
  function ComposedEmail(id: string, user: User, data: ComposeData, now: int): (r: Email)
    requires data.to + data.cc + data.bcc != []
    ensures r.recipient.email == (data.to + data.cc + data.bcc)[0]
    ensures r.recipient.name == BeforeFirst(r.recipient.email, '@')
    ensures StartsWith(r.recipient.email, r.recipient.name) && '@' !in r.recipient.name
    ensures r.recipient.initial == Initial(r.recipient.email) && r.recipient.color == RecipientColor
    ensures r.sender == SelfParticipant(user)
    ensures r.id == id && r.timestamp == now
    ensures r.subject == data.subject && r.body == data.body && r.isRead
    ensures r.preview == SendPreview(data.body)
  {
    var address := (data.to + data.cc + data.bcc)[0];
    Email(id, SelfParticipant(user),
      EmailParticipant(BeforeFirst(address, '@'), address, Initial(address), RecipientColor),
      data.subject, SendPreview(data.body), data.body, now, true)
  }

  // --------------------------------------------------------------- replies

  /** The reply subject: "Re: " unless the subject already starts with it. */
  function ReplySubject(subject: string): (r: string)
    ensures StartsWith(r, "Re: ")
    ensures StartsWith(subject, "Re: ") ==> r == subject
    ensures !StartsWith(subject, "Re: ") ==> r == "Re: " + subject
  {
    if StartsWith(subject, "Re: ") then subject else "Re: " + subject
  }

  /** Replying to a reply does not stack prefixes. */
  lemma ReplySubjectIdempotent(subject: string)
    ensures ReplySubject(ReplySubject(subject)) == ReplySubject(subject)
  {
  }

  /** handleSendReply's new email: to the original sender, read, with the reply as body. */
  function ReplyEmail(id: string, user: User, original: Email, reply: string, now: int): (r: Email)
    ensures r.recipient == original.sender && r.subject == ReplySubject(original.subject)
    ensures r.body == reply && r.preview == ReplyPreview(reply) && r.isRead
    ensures r.id == id && r.timestamp == now
    ensures r.sender == SelfParticipant(user)
  {
    Email(id, SelfParticipant(user), original.sender, ReplySubject(original.subject), ReplyPreview(reply), reply, now, true)
  }

  /** handleSendReply acts only with an email open and a non-blank reply. */
  predicate ReplyAllowed(selected: Option<Email>, reply: string) {
    selected.Some? && !IsBlank(reply)
  }

  /** handleFormatReply wraps in `**` (bold) or `*` (italic). */
  function ReplyMarker(bold: bool): string {
    if bold then "**" else "*"
  }

  // ----------------------------------------------------------------- page

  datatype ComposeState = Closed | Normal | Minimized | Maximized

  class MailboxPage {
    var inbox: seq<Email>
    var sent: seq<Email>
    var trash: seq<Email>
    var activeFolder: Folder
    var selected: Option<Email>
    var replyContent: string
    var composeState: ComposeState

    constructor (seedInbox: seq<Email>, seedSent: seq<Email>, seedTrash: seq<Email>)
      ensures inbox == seedInbox && sent == seedSent && trash == seedTrash
      ensures activeFolder == Inbox && selected == None && replyContent == [] && composeState == Closed
    {
      inbox := seedInbox;
      sent := seedSent;
      trash := seedTrash;
      activeFolder := Inbox;
      selected := None;
      replyContent := [];
      composeState := Closed;
    }

    /** The list shown for the open folder. */
    function Shown(filter: ReadFilter, term: string): seq<Email>
      reads this
    {
      FilteredEmails(
        match activeFolder case Inbox => inbox case Sent => sent case Trash => trash,
        activeFolder, filter, term)
    }

    /** handleMoveToTrash. */
    method MoveToTrash(id: string)
      modifies this
      ensures (inbox, trash) == Move(old(inbox), old(trash), id)
      ensures sent == old(sent) && activeFolder == old(activeFolder) && replyContent == old(replyContent)
      ensures composeState == old(composeState)
      ensures FindEmail(old(inbox), id).Some? ==> selected == None
      ensures FindEmail(old(inbox), id).None? ==> selected == old(selected)
    {
      var found := FindEmail(inbox, id);
      if found.Some? {
        inbox := RemoveEmail(inbox, id);
        trash := [found.value] + trash;
        selected := None;
      }
    }

    /** handleRestoreFromTrash, the mirror of MoveToTrash. */
    method RestoreFromTrash(id: string)
      modifies this
      ensures (trash, inbox) == Move(old(trash), old(inbox), id)
      ensures sent == old(sent) && activeFolder == old(activeFolder) && replyContent == old(replyContent)
      ensures composeState == old(composeState)
      ensures FindEmail(old(trash), id).Some? ==> selected == None
      ensures FindEmail(old(trash), id).None? ==> selected == old(selected)
    {
      var found := FindEmail(trash, id);
      if found.Some? {
        trash := RemoveEmail(trash, id);
        inbox := [found.value] + inbox;
        selected := None;
      }
    }

    /** handleDeletePermanently: after confirmation, from Sent or Trash when
    * that folder is open; in the inbox nothing is deleted. */
    method DeletePermanently(id: string, confirmed: bool)
      modifies this
      ensures inbox == old(inbox) && activeFolder == old(activeFolder)
      ensures replyContent == old(replyContent) && composeState == old(composeState)
      ensures sent == (if confirmed && old(activeFolder) == Sent then RemoveEmail(old(sent), id) else old(sent))
      ensures trash == (if confirmed && old(activeFolder) == Trash then RemoveEmail(old(trash), id) else old(trash))
      ensures selected == (if confirmed then None else old(selected))
    {
      if confirmed {
        if activeFolder == Sent {
          sent := RemoveEmail(sent, id);
        } else if activeFolder == Trash {
          trash := RemoveEmail(trash, id);
        }
        selected := None;
      }
    }

    /** handleSendEmail: the new email goes to the front of Sent and the
    * compose window closes. */
    method SendEmail(id: string, user: User, data: ComposeData, now: int)
      requires data.to + data.cc + data.bcc != []
      modifies this
      ensures sent == [ComposedEmail(id, user, data, now)] + old(sent)
      ensures composeState == Closed && inbox == old(inbox) && trash == old(trash)
      ensures activeFolder == old(activeFolder) && selected == old(selected) && replyContent == old(replyContent)
    {
      sent := [ComposedEmail(id, user, data, now)] + sent;
      composeState := Closed;
    }

    /** handleSendReply: a blank reply, or no open email, does nothing. */
    method SendReply(id: string, user: User, now: int)
      modifies this
      ensures inbox == old(inbox) && trash == old(trash)
      ensures activeFolder == old(activeFolder) && composeState == old(composeState)
      ensures !ReplyAllowed(old(selected), old(replyContent)) ==>
        sent == old(sent) && selected == old(selected) && replyContent == old(replyContent)
      ensures ReplyAllowed(old(selected), old(replyContent)) ==>
        sent == [ReplyEmail(id, user, old(selected).value, old(replyContent), now)] + old(sent)
      ensures ReplyAllowed(old(selected), old(replyContent)) ==> selected == None && replyContent == []
    {
      if !ReplyAllowed(selected, replyContent) {
        return;
      }
      sent := [ReplyEmail(id, user, selected.value, replyContent, now)] + sent;
      selected := None;
      replyContent := [];
    }

    /** handleFormatReply. */
    method FormatReply(bold: bool, start: nat, end: nat)
      requires start <= end <= |replyContent|
      modifies this
      ensures replyContent == Selection.Wrap(old(replyContent), start, end, ReplyMarker(bold))
      ensures inbox == old(inbox) && sent == old(sent) && trash == old(trash) && selected == old(selected)
      ensures activeFolder == old(activeFolder) && composeState == old(composeState)
    {
      replyContent := Selection.Wrap(replyContent, start, end, ReplyMarker(bold));
    }
  }
}
