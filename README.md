# Campus social app: state logic in Dafny

This project models the client-side state logic of a campus social app for
students, teachers and administrators of one university. The app has a home
feed, direct messages, group chats, a mailbox, events, broadcasts, search,
profiles and settings. The original is a React single-page app with no
back end: every page keeps its data in component state, seeded from a
constant fixture file. The model covers that state logic:

- the chat and feed text formatter (HTML escaping, bold/italic/underline
  markers, hashtag links) and the selection-wrapping format buttons;
- groups: create, add and remove members, promote and demote admins,
  leave, settings, deleting messages;
- direct messages and the group-creation dialog of the messages page;
- the mailbox: folders, read filter, search, trash/restore/delete, compose
  with recipient chips, replies;
- the home feed: role filter, pinned recent broadcasts, inserting a new post
  after the pinned block, likes;
- broadcasts, events (calendar month, reminders, upcoming list, RSVP),
  relative time labels, user search, profile view, sidebar links, route
  guard, layout chrome, sign-up/login validation, the session, the
  change-password panel, and the seed data.

Each page whose state the source updates step by step is a `class` whose
fields are that state. Its methods state the new state in terms of pure
functions. Lemmas about those functions carry the properties: invariants
kept, round trips, orders kept, and iff conditions. Timestamps are integers
(milliseconds since the epoch). The clock, generated ids, `window.confirm`
answers and the logged-in user are parameters.

Module layout, one file each:

- Shared helpers: `Common` (trim, ASCII case, filter, subsequence), `Domain` (the app's records), `Sorting`.
- Text: `Selection` (the format buttons), `InlineFormat` (the formatter).
- Chat and mail: `Groups`, `Messages`, `Mailbox`, `Compose` (the compose window), `Chat` (chat input and post composer).
- Accounts: `Auth`, `Settings`.
- Feed and calendar: `Feed`, `Broadcasts`, `Events`, `TimeAgo`.
- Directory and routing: `Search`, `Profile`, `Navigation`.
- Fixtures: `Seed`.

## Model

| member | source | states |
|---|---|---|
| Common.TrimShape | components/ChatInput.tsx:44-45 | `trim` removes exactly a whitespace prefix and suffix: the result is a slice whose two ends are not whitespace |
| Common.BlankIffAllWhitespace | components/ChatInput.tsx:44 | a message is blank after trimming exactly when every character is whitespace |
| Common.FilterKeepsOrder | pages/MailboxPage.tsx:108-121 | `Array.filter` keeps a subsequence, in the original order |
| Common.FilteredFromUnique | pages/MailboxPage.tsx:108-121 | what `Array.filter` returns is pinned down by keeping the passing elements, each as often as in the input, in input order: two such lists are equal |
| Domain.FindUser | constants.tsx:68 | a lookup by id returns a directory user with that id, and fails exactly when no user has it |
| Sorting.SortBy | pages/BroadcastPage.tsx:95 | sorting by a key yields a permutation of the input that is ordered by the key |
| Sorting.InsertByStable | pages/BroadcastPage.tsx:95 | inserting into a sorted list puts the new item before the items with the same key, and keeps their order |
| Sorting.SortByStable | pages/BroadcastPage.tsx:95 | the sort is stable: for every key value, the items with that key come out in their input order |
| Selection.Wrap | components/ChatInput.tsx:61-84 | an empty selection leaves the text unchanged; otherwise the marker is inserted around the selection and the text before and after is kept |
| Selection.WrapKeepsSelection | components/ChatInput.tsx:86-89 | after wrapping, the range shifted by the marker length is still the selected text, which is where the caret range is restored |
| Selection.UnwrapWrap | components/ChatInput.tsx:80-82 | wrapping is undone by removing the two inserted markers |
| Selection.WrapAllBold | components/ChatInput.tsx:74-80 | wrapping a whole plain message in the bold marker renders as `<strong>` around it |
| Selection.WrapAllItalic | components/CreatePostModal.tsx:64-72 | wrapping a whole plain message in the italic marker renders as `<em>` around it |
| Selection.WrapAllUnderline | components/CreatePostModal.tsx:64-72 | wrapping a whole plain message in the underline marker renders as `<u>` around it |
| InlineFormat.EscapeChainIsEntityWise | components/MessageBubble.tsx:14-19 | the five chained global replaces equal escaping each character on its own (the `&` pass first prevents double escaping) |
| InlineFormat.UnescapeEscape | components/MessageBubble.tsx:14-19 | escaping loses nothing: decoding the five entities gives back the original text |
| InlineFormat.FindCloseCorrect | components/MessageBubble.tsx:21-23 | the lazy `(.*?)` closes at the first closing marker that has no line break before it, and fails when there is none |
| InlineFormat.FormatMessageClean | components/MessageBubble.tsx:13-26 | the rendered message holds no raw `<`, `>`, `"` or `'` except inside the six emitted tags, so user text cannot inject markup |
| InlineFormat.FormatMessagePlain | components/MessageBubble.tsx:13-26 | text without `*` or `_` is only escaped |
| InlineFormat.FormatBold | components/MessageBubble.tsx:21 | `**x**` renders as `<strong>x</strong>` |
| InlineFormat.FormatItalic | components/MessageBubble.tsx:22 | `*x*` renders as `<em>x</em>` for non-empty x |
| InlineFormat.FormatUnderline | components/MessageBubble.tsx:23 | `__x__` renders as `<u>x</u>` |
| InlineFormat.FormatAcrossLineBreak | components/MessageBubble.tsx:22 | markers separated by a line break are left as typed, because `.` does not match a line terminator |
| InlineFormat.FormatUnpairedDouble | components/MessageBubble.tsx:21-22 | an unpaired `**x` becomes `<em></em>x`: the italic pass pairs the two asterisks |
| InlineFormat.WordRun | components/FeedPostCard.tsx:33 | the `\w+` run is the longest prefix of word characters |
| InlineFormat.LinkEntityAsWritten | components/FeedPostCard.tsx:33 | the hashtag pass links the `#039` inside the apostrophe entity `&#039;` |
| InlineFormat.FeedLinksInsideEntity | components/FeedPostCard.tsx:19-36 | as written, a post holding an apostrophe renders with a link inside its entity |
| InlineFormat.FormatFeedNoHash | components/FeedPostCard.tsx:19-36 | with the corrected linker, a post without `#` renders exactly as a chat message |
| InlineFormat.FeedKeepsEntity | components/FeedPostCard.tsx:19-36 | with the corrected linker, an apostrophe renders as its intact entity |
| InlineFormat.FormatFeedHashtag | components/FeedPostCard.tsx:33 | `#word` renders as a link around `#word` |
| Groups.RemoveMember | pages/GroupsPage.tsx:182 | removing a member returns exactly what `filter` returns: every user without that id, in the original order, and no user with it |
| Groups.RemoveMemberFirst | pages/GroupsPage.tsx:196-198 | the first member left after a removal is the earliest member, in the group's order, whose id differs from the removed one |
| Groups.ApplyMemberAction | pages/GroupsPage.tsx:178-191 | remove (when confirmed) filters the member out of members and the id out of admins, keeping the order of the rest; promote appends to admins; demote filters the id out of admins; nothing else changes |
| Groups.MemberActionKeepsValid | pages/GroupsPage.tsx:294-301 | every action the settings modal offers keeps admins among members with at least one admin, and the acting admin stays |
| Groups.PromoteDuplicates | pages/GroupsPage.tsx:186 | promote does not check for duplicates: promoting an admin lists the id once more |
| Groups.DemoteUndoesPromote | pages/GroupsPage.tsx:186-188 | demoting right after promoting a non-admin restores the group |
| Groups.Leave | pages/GroupsPage.tsx:193-207 | leaving (when confirmed) removes the caller from members; a leaving admin is removed from admins, and when none remain the first remaining member becomes admin, or the admins stay empty when no member remains; id, name, avatar and description are kept |
| Groups.LeaveSuccessor | pages/GroupsPage.tsx:193-207 | when the last admin leaves, the new admin is the earliest member, in the group's order, other than the leaver |
| Groups.LeaveKeepsValid | pages/GroupsPage.tsx:193-207 | leaving keeps the group valid, and the caller is neither member nor admin afterwards |
| Groups.SaveSettings | pages/GroupsPage.tsx:172-176 | saving changes only name and description |
| Groups.SaveKeepsValid | pages/GroupsPage.tsx:172-176 | saving settings keeps the group valid |
| Groups.DeleteAlert | pages/GroupsPage.tsx:209-216 | deleting raises the alert `Group "<name>" has been deleted.` exactly when confirmed; the group list is not changed |
| Groups.SendToGroup | pages/GroupsPage.tsx:382-397 | a sent group message is appended at the end; id, name, avatar, description, members and admins are kept |
| Groups.Candidates | pages/GroupsPage.tsx:30-36 | the add-member list is the directory users that are not members and whose name or username contains the lower-cased term, in directory order |
| Groups.CandidatesAreNonMembers | pages/GroupsPage.tsx:30-36 | no candidate is a member, and with an empty term every non-member is a candidate |
| Groups.AddMembers | pages/GroupsPage.tsx:50-53 | adding appends exactly the selected directory users, in directory order, after the existing members; id, name, avatar and description are kept |
| Groups.AddMembersKeepsValid | pages/GroupsPage.tsx:404-412 | adding selected candidates keeps the group valid and adds no existing member |
| Groups.ToggleSelected | pages/GroupsPage.tsx:512-518 | toggling removes a selected user, keeping the order of the others, or appends an unselected one |
| Groups.ToggleTwice | pages/GroupsPage.tsx:512-518 | toggling the same user twice restores who is selected |
| Groups.NewGroup | pages/GroupsPage.tsx:583-593 | a new group has the given id, the chosen members, the creator as sole admin, no messages, the avatar `https://picsum.photos/seed/<name>/200` and no description |
| Groups.NewGroupValid | pages/GroupsPage.tsx:583-593 | a group created with the creator among its members is valid |
| Groups.CreateGroupForm.EditName | pages/GroupsPage.tsx:532 | typing sets the group name; the selection is kept |
| Groups.CreateGroupForm.Toggle | pages/GroupsPage.tsx:512-518 | the form's selection becomes the toggled selection and the creator stays selected |
| Groups.CreateGroupForm.Submit | pages/GroupsPage.tsx:520-527 | submits only with a non-blank name and at least two selected users, then resets the form |
| Groups.Replace | pages/GroupsPage.tsx:595-597 | an update replaces every group with the same id and keeps the rest, in place |
| Groups.ReplaceUnknown | pages/GroupsPage.tsx:595-597 | updating a group whose id is not listed changes nothing |
| Groups.FindGroup | pages/GroupsPage.tsx:581 | the lookup returns the first listed group with that id, and fails exactly when none has it |
| Groups.UserGroups | pages/GroupsPage.tsx:580 | the sidebar lists exactly the groups the user belongs to, in stored order |
| Groups.WithoutMessage | pages/GroupsPage.tsx:606-609 | deleting a group message filters out exactly the messages with that id, keeping the order of the rest; id, name, avatar, description, members and admins are kept |
| Groups.GroupsPage.CreateGroup | pages/GroupsPage.tsx:583-593 | the new group is placed first and every group stays valid |
| Groups.GroupsPage.UpdateGroup | pages/GroupsPage.tsx:595-597 | the list becomes the replaced list and every group stays valid |
| Groups.GroupsPage.RequestDelete | pages/GroupsPage.tsx:669 | asking to delete a message records that group and message as pending; the groups are kept |
| Groups.GroupsPage.CancelDelete | pages/GroupsPage.tsx:681-690 | cancelling clears the pending deletion; the groups are kept |
| Groups.GroupsPage.ConfirmDelete | pages/GroupsPage.tsx:599-614 | a pending deletion removes that message from its group, if the group exists; the request is then cleared |
| Messages.DirectOnly | pages/MessagesPage.tsx:167 | the page starts from the non-group conversations only, in their original order |
| Messages.SendTo | pages/MessagesPage.tsx:188-207 | sending appends the message to the conversation with that id and leaves the others |
| Messages.DeleteFrom | pages/MessagesPage.tsx:209-223 | deleting filters out exactly the messages with that id from that conversation, keeping the order of the rest; other conversations and the conversation's other fields are kept |
| Messages.SendKeepsCounters | pages/MessagesPage.tsx:199-206 | sending never changes unread counters, and an unknown conversation id changes nothing |
| Messages.SentIsLast | pages/MessagesPage.tsx:191-202 | the sent message is the last of its conversation, from the sender, marked read |
| Messages.DeleteOnlyOwn | pages/MessagesPage.tsx:73-74 | the delete control appears exactly on the user's own messages, never on system messages |
| Messages.MessagesPage.Send | pages/MessagesPage.tsx:188-207 | the conversations become the sent-to list; groups and the pending deletion are kept |
| Messages.MessagesPage.RequestDelete | pages/MessagesPage.tsx:328 | asking to delete a message records that conversation and message as pending; conversations and groups are kept |
| Messages.MessagesPage.ConfirmDelete | pages/MessagesPage.tsx:209-223 | a pending deletion is applied, then cleared |
| Messages.MessagesPage.CreateGroup | pages/MessagesPage.tsx:225-236 | the new group is placed first |
| Messages.GroupDialog.EditName | pages/MessagesPage.tsx:133 | typing sets the group name; the selection is kept |
| Messages.GroupDialog.Toggle | pages/MessagesPage.tsx:115-121 | the selection becomes the toggled selection, the name is kept and the creator, whose checkbox is disabled, stays selected |
| Messages.GroupDialog.Submit | pages/MessagesPage.tsx:123-128 | creates a group only with a non-blank name and at least two selected users |
| Messages.GroupDialog.Close | pages/MessagesPage.tsx:108-113 | closing resets the name and the selection to the creator alone |
| Messages.CreatedGroupListed | pages/MessagesPage.tsx:225-236 | a created group is valid and is listed among its creator's groups |
| Mailbox.FindEmail | pages/MailboxPage.tsx:197 | the lookup returns the first folder email with that id, and fails exactly when none has it |
| Mailbox.RemoveEmail | pages/MailboxPage.tsx:199 | filters out exactly the emails with that id, keeping the order of the rest |
| Mailbox.Move | pages/MailboxPage.tsx:196-203 | moving removes every email with the id from the source and puts the first one found at the head of the target; an unknown id changes nothing |
| Mailbox.TrashRestoreRoundTrip | pages/MailboxPage.tsx:196-223 | trashing an email and restoring it brings the inbox back (with the email first) and the trash back |
| Mailbox.FilteredEmails | pages/MailboxPage.tsx:102-122 | the list shows exactly the folder's emails that pass the read filter (inbox only) and the subject or counterparty-name search |
| Mailbox.FilteredKeepsFolder | pages/MailboxPage.tsx:102-122 | the list is in folder order; with no term it is the whole folder outside the inbox, and the whole inbox under All |
| Mailbox.StripTagsNoTag | pages/MailboxPage.tsx:144 | stripping `<[^>]*>` leaves no complete tag |
| Mailbox.StripTagsPlain | pages/MailboxPage.tsx:144 | text without `<` is kept as is |
| Mailbox.SendPreview | pages/MailboxPage.tsx:144 | the preview is the tag-stripped first 100 characters followed by `...`; no tag survives and it is at most 103 characters |
| Mailbox.SendPreviewPlain | pages/MailboxPage.tsx:144 | a body with no `<` in its first 100 characters is previewed verbatim, the same as a reply preview |
| Mailbox.ReplyPreview | pages/MailboxPage.tsx:185 | the reply preview is the first 100 characters of the reply followed by `...` |
| Mailbox.ComposedEmail | pages/MailboxPage.tsx:124-148 | a sent email goes to the first of to, cc and bcc, named by its part before `@`, with that address's capitalised initial and the gray badge; the sender is the user with the blue badge; subject and body are kept, the preview is the send preview and it is already read |
| Mailbox.ReplySubject | pages/MailboxPage.tsx:184 | the subject gains `Re: ` unless it already starts with it |
| Mailbox.ReplySubjectIdempotent | pages/MailboxPage.tsx:184 | replying to a reply does not stack a second `Re: ` |
| Mailbox.ReplyEmail | pages/MailboxPage.tsx:175-189 | a reply goes to the original sender from the user, with the "Re: " subject, the reply as body and its preview, the given id and time, already read |
| Mailbox.MailboxPage.MoveToTrash | pages/MailboxPage.tsx:196-203 | inbox and trash become the moved pair and the selection closes when the email was found; the sent folder, active folder, reply text and compose window are kept |
| Mailbox.MailboxPage.RestoreFromTrash | pages/MailboxPage.tsx:216-223 | trash and inbox become the moved pair and the selection closes when the email was found; the sent folder, active folder, reply text and compose window are kept |
| Mailbox.MailboxPage.DeletePermanently | pages/MailboxPage.tsx:205-214 | when confirmed, removes the email from the active folder if it is sent or trash (never the inbox), keeping the order of the rest, and closes the selection; the reply text and compose window are kept |
| Mailbox.MailboxPage.SendEmail | pages/MailboxPage.tsx:124-152 | the composed email goes first in the sent folder and the compose window closes; the other folders, the active folder, the selection and the reply text are kept |
| Mailbox.MailboxPage.SendReply | pages/MailboxPage.tsx:172-194 | with a selected email and a non-blank reply, the reply goes first in the sent folder and the reader closes; otherwise nothing changes; the active folder and compose window are kept either way |
| Mailbox.MailboxPage.FormatReply | pages/MailboxPage.tsx:154-170 | the reply text becomes the selection wrapped in `**` or `*`; everything else is kept |
| Compose.Commit | components/ComposeMail.tsx:40-47 | the trimmed input is appended unless blank or already present, so the chips stay duplicate-free |
| Compose.CommitIdempotent | components/ComposeMail.tsx:43-46 | committing the same input twice adds it at most once |
| Compose.RemoveAtDistinct | components/ComposeMail.tsx:53-55 | removing a chip by index keeps the chips duplicate-free |
| Compose.RecipientInput.Type | components/ComposeMail.tsx:72 | typing sets the pending text; the chips are kept |
| Compose.RecipientInput.KeyDown | components/ComposeMail.tsx:40-51 | Enter, comma or space with text commits it and clears the input; Backspace on an empty input drops the last chip; other keys change nothing |
| Compose.RecipientInput.Remove | components/ComposeMail.tsx:53-55 | removes the chip at the index |
| Compose.SendData | components/ComposeMail.tsx:96-108 | sending is refused exactly when To, Cc and Bcc are all empty; otherwise the fields, the subject and the body are passed on unchanged |
| Compose.ToggleMaximize | components/ComposeMail.tsx:121-123 | the maximize button switches between maximized and normal |
| Compose.HeaderClick | components/ComposeMail.tsx:146 | clicking the header restores a minimized window and does nothing otherwise |
| Compose.ToggleMaximizeTwice | components/ComposeMail.tsx:121-123 | maximizing twice returns to the state it started in, from normal or maximized |
| Compose.MinimizeThenRestore | components/ComposeMail.tsx:146-150 | a minimized window reopens as normal and can then be maximized |
| Chat.Outgoing | components/ChatInput.tsx:43-52 | a blank message is not sent; otherwise the trimmed text is sent |
| Chat.OutgoingTrimmed | components/ChatInput.tsx:44-45 | the sent text is the typed text minus leading and trailing whitespace, and neither of its ends is whitespace |
| Chat.ChatInput.Edit | components/ChatInput.tsx:28-41 | the format tools show exactly when the text is non-empty |
| Chat.ChatInput.Send | components/ChatInput.tsx:43-52 | sends the outgoing text and then clears the input and hides the tools; a blank message changes nothing |
| Chat.ChatInput.KeyDown | components/ChatInput.tsx:54-59 | Enter without Shift sends exactly what the send button would; any other key sends nothing and leaves the input as it was |
| Chat.ChatInput.ApplyFormat | components/ChatInput.tsx:61-90 | the text becomes the wrapped text and the new caret range is the old one shifted by the marker |
| Chat.PostOutgoing | components/CreatePostModal.tsx:45-49 | a post is refused when blank and is otherwise passed on untrimmed |
| Chat.PostKeepsWhitespace | components/CreatePostModal.tsx:45-49 | posting is enabled exactly when chat would send, but the post keeps its surrounding whitespace |
| Chat.PostComposer.Open | components/CreatePostModal.tsx:29-35 | opening the modal clears the content |
| Chat.PostComposer.Edit | components/CreatePostModal.tsx:108 | typing sets the content |
| Chat.PostComposer.Post | components/CreatePostModal.tsx:45-49 | posts the content, untrimmed, when it is not blank |
| Chat.PostComposer.ApplyFormat | components/CreatePostModal.tsx:51-80 | the content becomes the wrapped content and the caret range shifts by the marker |
| Auth.DashUnderscoreNotSpecial | pages/AuthPage.tsx:179 | a password whose only symbols are `-` and `_` is not strong, because neither is in the special-character class |
| Auth.StrongExtends | pages/AuthPage.tsx:174-182 | appending a character to a strong password keeps it strong |
| Auth.ValidateEmail | pages/AuthPage.tsx:184-195 | an address is valid exactly when it is non-empty and ends with the university domain; the error appears exactly for a non-empty other address |
| Auth.DeriveRole | pages/AuthPage.tsx:209-211 | the role is Student exactly when the part before the first `@` is ten digits, otherwise Teacher; never Admin |
| Auth.StudentAddress | pages/AuthPage.tsx:204-215 | ten digits at the university domain make a valid student address |
| Auth.MismatchAfterEdit | pages/AuthPage.tsx:219-237 | the mismatch message shows exactly when the other field is filled and differs |
| Auth.LoginAttempt | pages/AuthPage.tsx:36-44 | login goes ahead exactly when email and password are both filled, and uses the email; otherwise the form shows "Please enter both email and password." |
| Auth.SignUpForm.EditName | pages/AuthPage.tsx:283 | typing the name sets it; every other field is kept |
| Auth.SignUpForm.EmailChange | pages/AuthPage.tsx:197-202 | typing the email sets it, revalidates the email error and clears the assigned role; the other fields are kept |
| Auth.SignUpForm.EmailBlur | pages/AuthPage.tsx:204-217 | on blur the email error is revalidated and the role is derived for a valid address, cleared otherwise; name, email, passwords, password error and form error are kept |
| Auth.SignUpForm.PasswordChange | pages/AuthPage.tsx:219-227 | typing the password sets it; the password error becomes "Passwords do not match." exactly when a confirmation was typed and differs, and is empty otherwise; the other fields are kept |
| Auth.SignUpForm.ConfirmChange | pages/AuthPage.tsx:229-237 | typing the confirmation sets it; the password error becomes "Passwords do not match." exactly when a password was typed and differs, and is empty otherwise; the other fields are kept |
| Auth.SignUpForm.Submit | pages/AuthPage.tsx:239-263 | registers with the derived role exactly when the earlier email error is empty, all fields are filled, the password is strong and both passwords match; otherwise the first failing check decides the form error ("Please fill in all fields.", the strength message) or sets the mismatch message; the fields and role are kept |
| Auth.Username | contexts/AuthContext.tsx:54 | the username is the lower-cased name with only its first space removed: the lower-cased text before that space followed by the lower-cased text after it |
| Auth.UsernameSpaces | contexts/AuthContext.tsx:54 | a username keeps every space of the name but the first |
| Auth.FindByEmail | contexts/AuthContext.tsx:34 | the lookup returns the first directory user with that email, and fails exactly when none has it |
| Auth.Session.Login | contexts/AuthContext.tsx:32-41 | logs in the user with that email, or the demo student when none matches |
| Auth.Session.Logout | contexts/AuthContext.tsx:43-45 | clears the user; the session is no longer authenticated |
| Auth.Session.Register | contexts/AuthContext.tsx:47-62 | the new user has the given name, email and role and the derived username, and is logged in |
| Settings.ComputeErrors | pages/SettingsPage.tsx:55-67 | the new-password error shows exactly for a non-empty password under 8 characters; the confirm error exactly for a non-empty confirmation that differs |
| Settings.Errors | pages/SettingsPage.tsx:55-67 | the same two iff conditions, as a value |
| Settings.EmptyFieldsNoErrors | pages/SettingsPage.tsx:50-53 | empty fields show no message |
| Settings.UpdateEnabledIff | pages/SettingsPage.tsx:82-87 | the update button is enabled exactly when the current password is filled, the new one has at least 8 characters and the confirmation matches |
| Feed.VisiblePosts | pages/HomePage.tsx:48-50 | students see only posts by teachers and administrators; other roles see every post |
| Feed.VisibleKeepsOrder | pages/HomePage.tsx:48-50 | the visible posts keep the fixture order |
| Feed.SortFeed | pages/HomePage.tsx:57-63 | sorting yields a permutation ordered pinned-first, then newest-first |
| Feed.InsertSortedStable | pages/HomePage.tsx:57-63 | inserting into a sorted feed puts the new item before the items the comparator ranks equal to it, and keeps their order |
| Feed.SortFeedStable | pages/HomePage.tsx:57-63 | the sort is stable: items the comparator ranks equal (same recent-broadcast flag, same timestamp) keep their input order |
| Feed.LoadFeedContents | pages/HomePage.tsx:44-68 | the loaded feed holds every broadcast and exactly the visible posts, and nothing else |
| Feed.PinnedFirst | pages/HomePage.tsx:57-63 | in a sorted feed no unpinned item precedes a pinned one, and items of equal pinning are newest first |
| Feed.LastPinnedIndex | pages/HomePage.tsx:83-88 | the loop finds the last index holding a broadcast from the last 24 hours, or -1 when there is none |
| Feed.InsertAt | pages/HomePage.tsx:90-91 | the splice puts the item right after the index and shifts the rest |
| Feed.InsertKeepsSorted | pages/HomePage.tsx:82-93 | in a sorted feed, a new post inserted right after the pinned block, no older than any item, keeps the feed sorted |
| Feed.HomePage.Load | pages/HomePage.tsx:44-68 | with a user the feed becomes the loaded feed and loading ends; without one nothing changes |
| Feed.HomePage.OpenComposer | pages/HomePage.tsx:106-108 | only non-students can open the post composer |
| Feed.HomePage.CreatePost | pages/HomePage.tsx:70-95 | a non-blank post by a user is inserted right after the last pinned broadcast and the composer closes; otherwise nothing changes |
| Feed.LikeButton.constructor | components/FeedPostCard.tsx:60-61 | a card starts unliked at the post's own count |
| Feed.LikeButton.Toggle | components/FeedPostCard.tsx:63-66 | liking adds one and unliking removes one, keeping the count at the post's likes plus one exactly while liked |
| Broadcasts.SortNewestFirst | pages/BroadcastPage.tsx:95 | the page starts from a permutation of the fixtures, newest first |
| Broadcasts.SortNewestFirstStable | pages/BroadcastPage.tsx:95 | broadcasts with the same timestamp keep their fixture order |
| Broadcasts.BroadcastPage.SetFields | pages/BroadcastPage.tsx:152-172 | typing the title or content or picking an audience sets those form fields; the broadcast list is kept |
| Broadcasts.NewBroadcast | pages/BroadcastPage.tsx:116-128 | a broadcast is created exactly when title and content are non-blank and a user is logged in; it carries the given id and time, the untrimmed title and content, the user and the audience |
| Broadcasts.PrependKeepsNewestFirst | pages/BroadcastPage.tsx:126 | a new broadcast, no older than the list, keeps the list newest first |
| Broadcasts.BroadcastPage.Send | pages/BroadcastPage.tsx:116-128 | a sent broadcast goes first and the form is cleared; an incomplete form changes nothing |
| Events.DateKeyOrder | pages/EventsPage.tsx:146-147 | comparing date keys is comparing dates chronologically |
| Events.ChangeMonth | pages/EventsPage.tsx:101-108 | the calendar moves to the first of the month delta months away, carrying into the year |
| Events.ChangeMonthCompose | pages/EventsPage.tsx:101-108 | moving by a months then b months is moving by a+b months |
| Events.NextThenPrevious | pages/EventsPage.tsx:101-108 | next then previous returns to the first of the month |
| Events.DecemberRollsOver | pages/EventsPage.tsx:104-105 | the month after December is January of the next year |
| Events.ToggleReminder | pages/EventsPage.tsx:110-120 | toggling flips only that event's reminder |
| Events.ToggleReminderTwice | pages/EventsPage.tsx:110-120 | toggling twice restores the reminders |
| Events.EventDays | pages/EventsPage.tsx:122-129 | the marked days are exactly the days of events in the viewed month and year |
| Events.ReminderDays | pages/EventsPage.tsx:131-139 | the bell days are exactly the days of reminded events in view |
| Events.ReminderDaysAreEventDays | pages/EventsPage.tsx:122-139 | every bell day is also an event day |
| Events.Upcoming | pages/EventsPage.tsx:142-148 | the upcoming list is a permutation of the events from today's midnight on, in date order |
| Events.UpcomingStable | pages/EventsPage.tsx:146-147 | upcoming events at the same instant keep their stored order |
| Events.UpcomingContents | pages/EventsPage.tsx:145-147 | an event is upcoming exactly when it is not before today's midnight |
| Events.OnDay | pages/EventsPage.tsx:149 | with a date selected, the list is exactly that day's events |
| Events.OnDayKeepsOrder | pages/EventsPage.tsx:149 | that list keeps the stored order |
| Events.EventsPage.ChangeMonthBy | pages/EventsPage.tsx:101-108 | the viewed date becomes the moved date; events, reminders, selection and modal are kept |
| Events.EventsPage.Toggle | pages/EventsPage.tsx:110-120 | the reminders become the toggled set; events, viewed date, selection and modal are kept |
| Events.EventsPage.SelectDate | pages/EventsPage.tsx:185 | clicking a day selects it; events, reminders, viewed date and modal are kept |
| Events.EventsPage.ClearFilter | pages/EventsPage.tsx:189 | the Clear Filter button drops the selection; events, reminders, viewed date and modal are kept |
| Events.EventsPage.CreateEvent | pages/EventsPage.tsx:152-167 | with a user, the new event goes first with nobody attending and the modal closes |
| Events.CreatedEventListed | pages/EventsPage.tsx:141-150 | after a creation the listed events are the earlier ones plus the new event exactly when its date passes the current filter, and with a day selected it heads that day's list |
| Events.ResolveAttendees | components/EventCard.tsx:22 | attendee ids resolve to directory users; unknown ids are dropped |
| Events.ResolveKeepsOrder | components/EventCard.tsx:22 | resolved attendees keep the order of the ids |
| Events.ResolveMember | components/EventCard.tsx:21-22 | a directory user is among the resolved attendees exactly when their id is listed |
| Events.ShownAvatars | components/EventCard.tsx:63 | at most five attendees are shown, from the start of the list |
| Events.Overflow | components/EventCard.tsx:66-68 | the `+n` badge shows exactly when there are more than five attendees |
| Events.AvatarsAccountForAll | components/EventCard.tsx:63-68 | shown avatars plus the badge count equal the number of attendees |
| Events.EventCard.Rsvp | components/EventCard.tsx:24-32 | RSVP flips attendance, appends the user when joining and removes them when leaving, and keeps the card consistent |
| Events.InitiallyConsistent | components/EventCard.tsx:21-22 | initially, attending agrees with the user being among the resolved attendees |
| TimeAgo.ElapsedSeconds | components/FeedPostCard.tsx:8 | the elapsed seconds are the floor of the millisecond difference over 1000 |
| TimeAgo.FeedLabel | components/FeedPostCard.tsx:7-17 | over 7 days a calendar date, over 1 day whole days, from 2 hours whole hours, from 2 minutes whole minutes, else Just now |
| TimeAgo.FeedLabelEdges | components/FeedPostCard.tsx:11-16 | 119 seconds is Just now, 120 is 2m, 1h59m is 119m, a day is 24h, 7 days is 7d |
| TimeAgo.BroadcastBuckets | components/BroadcastCard.tsx:6-21 | under 5 s just now, then seconds, minutes, hours, days, and a date from a week on |
| TimeAgo.PostLabel | components/PostCard.tsx:16-29 | years beyond one year, months beyond one month up to a year, days beyond a day up to a month, hours beyond an hour up to a day, minutes beyond a minute up to an hour, else seconds; the count is floored to the unit |
| TimeAgo.PostLabelEdges | components/PostCard.tsx:18-28 | 60 s stays in seconds, 61 s is 1 minute, 365 days is 12 months, just past it 1 year |
| TimeAgo.NoSingular | components/PostCard.tsx:27-28 | the label never uses a singular unit: 61 seconds reads `1 minutes ago` |
| Search.Results | pages/SearchPage.tsx:29-41 | a trimmed term under two characters finds nobody; otherwise exactly the users whose lower-cased name or username contains the lower-cased term |
| Search.ResultsInDirectoryOrder | components/SearchResultsDropdown.tsx:17-29 | results keep the directory order |
| Search.PaddedTermNeedsSpace | pages/SearchPage.tsx:30-35 | the length check trims but the match does not: a term with a space matches only names or usernames containing a space |
| Search.SearchPage.Type | pages/SearchPage.tsx:29-41 | typing sets the term and the results for it |
| Search.SearchPage.SetOpen | pages/SearchPage.tsx:18-27 | closing the page clears term and results |
| Profile.DisplayedUser | pages/ProfilePage.tsx:68 | a route id selects that directory user; without one the logged-in user is shown |
| Profile.View | pages/ProfilePage.tsx:68-76 | User not found exactly when there is no such user or nobody is logged in; otherwise their posts, the posts with an image, and whether it is the viewer's own profile |
| Profile.UnknownIdNotFound | pages/ProfilePage.tsx:68-72 | an id missing from the directory shows User not found |
| Profile.NoIdIsOwnProfile | pages/ProfilePage.tsx:68-74 | without an id the viewer sees their own profile |
| Profile.ProfileListsInOrder | pages/ProfilePage.tsx:75-76 | the post and media lists keep the fixture order |
| Navigation.AvailableLinks | components/Sidebar.tsx:24 | the sidebar shows exactly the links open to the user's role, none without a user |
| Navigation.AvailableInOrder | components/Sidebar.tsx:24 | the links keep their display order |
| Navigation.LinksPerRole | components/Sidebar.tsx:12-24 | students get the first seven links; teachers and admins also get Analytics and Broadcast |
| Navigation.Guard | components/ProtectedRoute.tsx:12-24 | unauthenticated visitors go to /auth, users with a role not allowed go to /home, and the page renders exactly otherwise |
| Navigation.StudentsKeptFromStaffPages | App.tsx:44-49 | a student opening a staff-only route is sent to /home |
| Navigation.Content | components/Layout.tsx:13-26 | chat pages get a full-height box; other pages get padding, with room for the header and the bottom navigation exactly where those show |
| Navigation.GroupPageChrome | components/Layout.tsx:13-15 | a group chat page has neither header nor bottom navigation and is full height |
| Navigation.HomeChrome | components/Layout.tsx:14-15 | the home page leaves room for both header and bottom navigation |
| Navigation.BackTarget | pages/ProfilePage.tsx:60-66 | back goes one step in history when there is one, else replaces the route with /home |
| Seed.DirectoryIdsDistinct | constants.tsx:68-175 | directory ids are distinct and user-1 is the demo student |
| Seed.UnreadCount | constants.tsx:231-254 | the unread count is zero exactly when every message is read |
| Seed.SeedUnreadCounts | constants.tsx:231-254 | every seed conversation's unread counter equals its number of unread messages |
| Seed.SeedGroupsValid | constants.tsx:256-283 | every seed group is valid |
| Seed.CreateParticipant | constants.tsx:285-290 | a participant copies name and email, takes the upper-cased initial, and is blue exactly for students |
| Seed.SeedFoldersDisjoint | constants.tsx:292-327 | no inbox email shares an id with a sent email |
| Seed.SeedParticipantColors | constants.tsx:285-290 | the teacher seed sender is green and the student is blue with initial A |

## Left out

- Rendering, styling, icons, modals' open/closed flags where nothing depends on them, focus handling, textarea auto-resize and scrolling are not modelled.
- Persistence of the session in `localStorage` is not modelled. The stored user is a constructor parameter of `Auth.Session`.
- `window.confirm` answers, the clock (`Date.now()`, `new Date()`) and generated ids are parameters. `alert` is modelled only as the message `Groups.DeleteAlert` returns.
- Timers (`setTimeout` around feed loading and caret restoring) are not modelled. Their effects are applied directly.
- Locale-dependent date formatting (`toLocaleDateString`, `toLocaleString`, the mail list timestamp) is not modelled. A calendar-date label is the constant `CalendarDate`.
- The calendar grid's weekday offset and days-in-month computation are not modelled, because they depend on the JavaScript `Date` calendar. Event dates are year, month, day and time of day in local time.
- `toLowerCase`/`toUpperCase` are modelled for ASCII letters only. Unicode case mapping is not modelled.
- `trim` uses an explicit whitespace set: the ASCII white space, the line terminators, NBSP, BOM and the Unicode space separators.
- Broadcasts.SortNewestFirst: the fixture array is sorted in place and shared with the home feed. The model sorts a copy, so that aliasing is not captured.
- Navigation.BackTarget: the groups and messages pages also require `window.history.length > 2`. Browser history is not modelled beyond the index check.
- Mailbox.ComposedEmail: requires at least one recipient. `Compose.SendData` refuses to send otherwise, so the page never reaches the `allRecipients[0]` access without one.
- The compose window's rich-text editor (`document.execCommand` on a content-editable element) is not modelled. The body is the HTML string the editor holds.
- Analytics, trending topics, suggested users (follow toggles), the profile header and the not-found page are static content without state logic, so they are not modelled.
- Auth.SignUpForm.Submit: the email error it reads is the one from before the handler's own `validateEmail` call. React state updates only take effect on the next render, so the model keeps that stale value.
- JavaScript string lengths and offsets count UTF-16 code units; the model's strings are sequences of Unicode scalar values, so every length, cut and offset below agrees with the source only on text without characters outside the Basic Multilingual Plane (emoji, for one). Surrogate pairs are not modelled.
- Auth.IsPasswordStrong: the eight-character minimum counts scalar values, not UTF-16 code units.
- Settings.Errors: the eight-character minimum counts scalar values, not UTF-16 code units.
- Settings.ComputeErrors: the same count as Settings.Errors.
- Search.Results: the two-character minimum of the trimmed term counts scalar values, not UTF-16 code units.
- Mailbox.Initial: takes the first scalar value, where `charAt(0)` can return half of a surrogate pair.
- Mailbox.SendPreview: the 100-character cut counts scalar values, and so never splits a surrogate pair as `substring` can.
- Mailbox.ReplyPreview: the same cut as Mailbox.SendPreview.
- Selection.Wrap: selection offsets index scalar values, where the textarea's `selectionStart` and `selectionEnd` count UTF-16 code units.
- Chat.ChatInput.ApplyFormat: offsets as in Selection.Wrap.
- Chat.PostComposer.ApplyFormat: offsets as in Selection.Wrap.
- Mailbox.MailboxPage.FormatReply: offsets as in Selection.Wrap.

## Findings

| source | as written | input that shows it | evidently intended | confidence | as-written member | corrected member |
|---|---|---|---|---|---|---|
| components/FeedPostCard.tsx:20-33 | hashtags are linked after HTML escaping, so `#\w+` also matches inside the entity `&#039;` that an apostrophe becomes | a post containing `'` renders as `&<a …>#039</a>;`, which breaks the apostrophe | link only hashtags the user typed; a `#` right after `&` starts an entity and is not linked | not executed | InlineFormat.FeedLinksInsideEntity | InlineFormat.FormatFeedNoHash |
