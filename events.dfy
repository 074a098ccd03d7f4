// The events page (month stepping of its calendar, reminders, the days
// marked in the viewed month, the listed events, creating an event) and
// the event card's attendance state.

module Events {
  import opened Common
  import opened Domain
  import Sorting

  // ----------------------------------------------------------- calendar

  /** Months are 0-based, days 1-based, the time of day in milliseconds. */
  predicate ValidDate(d: DateTime) {
    0 <= d.month < 12 && 1 <= d.day <= 31 && 0 <= d.msOfDay < 24 * 60 * 60 * 1000
  }

  /** A number that orders valid dates chronologically (local time). */
  function DateKey(d: DateTime): int {
    ((d.year * 12 + d.month) * 32 + d.day) * (24 * 60 * 60 * 1000) + d.msOfDay
  }

  /** On valid dates the key compares like the calendar: year, then month,
    * then day, then time of day. */
  lemma DateKeyOrder(a: DateTime, b: DateTime)
    requires ValidDate(a) && ValidDate(b)
    ensures DateKey(a) < DateKey(b) <==>
      a.year < b.year || (a.year == b.year && (a.month < b.month || (a.month == b.month &&
      (a.day < b.day || (a.day == b.day && a.msOfDay < b.msOfDay)))))
    ensures DateKey(a) == DateKey(b) <==> a == b
  {
    var D := 24 * 60 * 60 * 1000;
    var ma, mb := a.year * 12 + a.month, b.year * 12 + b.month;
    var da, db := ma * 32 + a.day, mb * 32 + b.day;
    assert DateKey(a) == da * D + a.msOfDay && DateKey(b) == db * D + b.msOfDay;
    assert da < db ==> DateKey(a) < DateKey(b) by {
      if da < db {
        assert (db - da) * D >= D;
      }
    }
    assert ma < mb ==> da < db;
    assert a.year < b.year ==> ma < mb;
    assert da == db ==> ma == mb && a.day == b.day;
    assert ma == mb ==> a.year == b.year && a.month == b.month;
  }

  /** changeMonth: day set to 1, then the month shifted by delta, carrying
    * into the year; the time of day is kept. */
  function ChangeMonth(d: DateTime, delta: int): (r: DateTime)
    ensures r.day == 1 && r.msOfDay == d.msOfDay
    ensures 0 <= r.month < 12
    ensures r.year * 12 + r.month == d.year * 12 + d.month + delta
  {
    var total := d.year * 12 + d.month + delta;
    DateTime(total / 12, total % 12, 1, d.msOfDay)
  }

  /** Steps compose: stepping by a and then by b is stepping by a + b. */
  lemma ChangeMonthCompose(d: DateTime, a: int, b: int)
    ensures ChangeMonth(ChangeMonth(d, a), b) == ChangeMonth(d, a + b)
  {
    var r1, r2 := ChangeMonth(ChangeMonth(d, a), b), ChangeMonth(d, a + b);
    MonthIndexDetermines(r1, r2);
  }

  lemma MonthIndexDetermines(x: DateTime, y: DateTime)
    requires 0 <= x.month < 12 && 0 <= y.month < 12
    requires x.year * 12 + x.month == y.year * 12 + y.month
    ensures x.year == y.year && x.month == y.month
  {
    assert y.year * 12 < (x.year + 1) * 12 && x.year * 12 < (y.year + 1) * 12;
    assert y.year < x.year + 1 && x.year < y.year + 1;
  }

  /** Forward one month and back one month shows the same month again,
    * on its first day. */
  lemma NextThenPrevious(d: DateTime)
    requires 0 <= d.month < 12
    ensures ChangeMonth(ChangeMonth(d, 1), -1) == d.(day := 1)
  {
    ChangeMonthCompose(d, 1, -1);
    MonthIndexDetermines(ChangeMonth(d, 0), d);
  }

  /** December steps forward into January of the next year. */
  lemma DecemberRollsOver(year: int, ms: int)
    ensures ChangeMonth(DateTime(year, 11, 15, ms), 1) == DateTime(year + 1, 0, 1, ms)
  {
    MonthIndexDetermines(ChangeMonth(DateTime(year, 11, 15, ms), 1), DateTime(year + 1, 0, 1, ms));
  }

  // ---------------------------------------------------------- reminders

  /** toggleReminder: adds an absent id, deletes a present one. */
  function ToggleReminder(reminders: set<string>, eventId: string): (r: set<string>)
    ensures eventId in r <==> eventId !in reminders
    ensures forall id :: id != eventId ==> (id in r <==> id in reminders)
  {
    if eventId in reminders then reminders - {eventId} else reminders + {eventId}
  }

  lemma ToggleReminderTwice(reminders: set<string>, eventId: string)
    ensures ToggleReminder(ToggleReminder(reminders, eventId), eventId) == reminders
  {
  }

  // --------------------------------------------------- days in the view

  predicate InView(d: DateTime, month: int, year: int) {
    d.month == month && d.year == year
  }

  /** eventDaysInView: the days of the viewed month holding an event. */
  function EventDays(events: seq<Event>, month: int, year: int): (r: set<int>)
    ensures forall day :: day in r <==>
      exists e :: e in events && InView(e.date, month, year) && e.date.day == day
  {
    set e | e in events && InView(e.date, month, year) :: e.date.day
  }

  /** reminderDaysInView: the same, counting only events with a reminder. */
  function ReminderDays(events: seq<Event>, reminders: set<string>, month: int, year: int): (r: set<int>)
    ensures forall day :: day in r <==>
      exists e :: e in events && e.id in reminders && InView(e.date, month, year) && e.date.day == day
  {
    set e | e in events && e.id in reminders && InView(e.date, month, year) :: e.date.day
  }

  /** A reminder dot only appears on a day that also has an event. */
  lemma ReminderDaysAreEventDays(events: seq<Event>, reminders: set<string>, month: int, year: int)
    ensures ReminderDays(events, reminders, month, year) <= EventDays(events, month, year)
  {
  }

  // ------------------------------------------------------- listed events

  /** The comparator `a.date - b.date` sorts ascending by this key. */
  function When(e: Event): int {
    DateKey(e.date)
  }

  /** With no date selected: the events from today's midnight on, earliest first. */
  function Upcoming(events: seq<Event>, todayMidnight: DateTime): (r: seq<Event>)
    ensures multiset(r) == multiset(Filter(events, (e: Event) => DateKey(e.date) >= DateKey(todayMidnight)))
    ensures forall i, j :: 0 <= i < j < |r| ==> DateKey(r[i].date) <= DateKey(r[j].date)
  {
    var r := Sorting.SortBy(Filter(events, (e: Event) => DateKey(e.date) >= DateKey(todayMidnight)), When);
    assert forall i, j :: 0 <= i < j < |r| ==> When(r[i]) <= When(r[j]);
    r
  }

  /** The upcoming list holds exactly the events not before today's midnight. */
  lemma UpcomingContents(events: seq<Event>, todayMidnight: DateTime)
    ensures forall e :: e in Upcoming(events, todayMidnight) <==> e in events && DateKey(e.date) >= DateKey(todayMidnight)
  {
    Sorting.PermutationMembers(Upcoming(events, todayMidnight),
      Filter(events, (e: Event) => DateKey(e.date) >= DateKey(todayMidnight)));
  }

  predicate SameDay(a: DateTime, b: DateTime) {
    a.year == b.year && a.month == b.month && a.day == b.day
  }

  /** `sort` is stable: upcoming events at the same instant keep their list order. */
  lemma UpcomingStable(events: seq<Event>, todayMidnight: DateTime, k: int)
    ensures Filter(Upcoming(events, todayMidnight), Sorting.KeyIs(When, k))
         == Filter(Filter(events, (e: Event) => DateKey(e.date) >= DateKey(todayMidnight)), Sorting.KeyIs(When, k))
  {
    Sorting.SortByStable(Filter(events, (e: Event) => DateKey(e.date) >= DateKey(todayMidnight)), When, k);
  }

  /** With a date selected: the events on that calendar day, in list order. */
  function OnDay(events: seq<Event>, selected: DateTime): (r: seq<Event>)
    ensures forall e :: e in r <==> e in events && SameDay(e.date, selected)
  {
    Filter(events, (e: Event) => SameDay(e.date, selected))
  }

  lemma OnDayKeepsOrder(events: seq<Event>, selected: DateTime)
    ensures Subsequence(OnDay(events, selected), events)
  {
    FilterKeepsOrder(events, (e: Event) => SameDay(e.date, selected));
  }

  /** filteredEvents. */
  function ListedEvents(events: seq<Event>, selected: Option<DateTime>, todayMidnight: DateTime): seq<Event> {
    if selected.None? then Upcoming(events, todayMidnight) else OnDay(events, selected.value)
  }

  // ---------------------------------------------------------- the page

  class EventsPage {
    var events: seq<Event>
    var isModalOpen: bool
    var selectedDate: Option<DateTime>
    var reminders: set<string>
    var currentDate: DateTime

    constructor (seed: seq<Event>, today: DateTime)
      ensures events == seed && !isModalOpen && selectedDate == None && reminders == {} && currentDate == today
    {
      events := seed;
      isModalOpen := false;
      selectedDate := None;
      reminders := {};
      currentDate := today;
    }

    method ChangeMonthBy(delta: int)
      modifies this
      ensures currentDate == ChangeMonth(old(currentDate), delta)
      ensures events == old(events) && reminders == old(reminders) && selectedDate == old(selectedDate)
      ensures isModalOpen == old(isModalOpen)
    {
      currentDate := ChangeMonth(currentDate, delta);
    }

    method Toggle(eventId: string)
      modifies this
      ensures reminders == ToggleReminder(old(reminders), eventId)
      ensures events == old(events) && currentDate == old(currentDate) && selectedDate == old(selectedDate)
      ensures isModalOpen == old(isModalOpen)
    {
      reminders := ToggleReminder(reminders, eventId);
    }

    method SelectDate(d: DateTime)
      modifies this
      ensures selectedDate == Some(d)
      ensures events == old(events) && reminders == old(reminders) && currentDate == old(currentDate)
      ensures isModalOpen == old(isModalOpen)
    {
      selectedDate := Some(d);
    }

    /** The Clear Filter button: back to the upcoming list. */
    method ClearFilter()
      modifies this
      ensures selectedDate == None
      ensures events == old(events) && reminders == old(reminders) && currentDate == old(currentDate)
      ensures isModalOpen == old(isModalOpen)
    {
      selectedDate := None;
    }

    /** handleCreateEvent: without a user nothing happens; otherwise the
      * event goes first, with nobody attending, and the modal closes. */
    method CreateEvent(user: Option<User>, id: string, title: string, description: string, location: string, date: DateTime)
      modifies this
      ensures user.None? ==> events == old(events) && isModalOpen == old(isModalOpen)
      ensures user.Some? ==> events == [NewEvent(user.value, id, title, description, location, date)] + old(events) && !isModalOpen
      ensures reminders == old(reminders) && currentDate == old(currentDate) && selectedDate == old(selectedDate)
    {
      if user.None? {
        return;
      }
      events := [NewEvent(user.value, id, title, description, location, date)] + events;
      isModalOpen := false;
    }
  }

  /** handleCreateEvent's new event: created by the user, nobody attending. */
  function NewEvent(creator: User, id: string, title: string, description: string,
                    location: string, date: DateTime): Event
  {
    Event(id, title, description, location, date, creator, [])
  }

  /** After a creation the listed events are the earlier ones plus the new
    * event exactly when its date passes the current filter; with a day
    * selected it heads the list. */
  lemma CreatedEventListed(events: seq<Event>, e: Event, selected: Option<DateTime>, todayMidnight: DateTime)
    ensures e in ListedEvents([e] + events, selected, todayMidnight) <==>
      (selected.None? && DateKey(e.date) >= DateKey(todayMidnight)) ||
      (selected.Some? && SameDay(e.date, selected.value))
    ensures forall x :: x in ListedEvents(events, selected, todayMidnight) ==>
      x in ListedEvents([e] + events, selected, todayMidnight)
    ensures forall x :: x in ListedEvents([e] + events, selected, todayMidnight) ==>
      x == e || x in ListedEvents(events, selected, todayMidnight)
    ensures selected.Some? && SameDay(e.date, selected.value) ==>
      OnDay([e] + events, selected.value) == [e] + OnDay(events, selected.value)
  {
    UpcomingContents(events, todayMidnight);
    UpcomingContents([e] + events, todayMidnight);
    if selected.Some? {
      assert ([e] + events)[1..] == events;
    }
  }

  // ---------------------------------------------------------- event card

  /** `event.attendees.map(id => USERS[id]).filter(Boolean)`. */
  function ResolveAttendees(ids: seq<UserId>, directory: seq<User>): (r: seq<User>)
    ensures |r| <= |ids|
    ensures forall u :: u in r ==> u in directory && u.id in ids
    ensures forall id :: id in ids && HasMember(directory, id) ==> HasMember(r, id)
  {
    if ids == [] then []
    else
      var found := FindUser(directory, ids[0]);
      var rest := ResolveAttendees(ids[1..], directory);
      assert forall id :: id in ids[1..] ==> id in ids;
      assert forall u :: u in rest ==> HasMember([u] + rest, u.id) by {
        forall u | u in rest ensures HasMember([u] + rest, u.id) {
          assert u in [u] + rest;
        }
      }
      (if found.Some? then
         assert HasMember([found.value] + rest, ids[0]) by { assert found.value in [found.value] + rest; }
         [found.value]
       else []) + rest
  }

  /** The resolved users appear in the order of their ids. */
  lemma {:induction false} ResolveKeepsOrder(ids: seq<UserId>, directory: seq<User>)
    ensures Subsequence(MemberIds(ResolveAttendees(ids, directory)), ids)
    decreases |ids|
  {
    if ids != [] {
      ResolveKeepsOrder(ids[1..], directory);
      var found := FindUser(directory, ids[0]);
      var rest := ResolveAttendees(ids[1..], directory);
      if found.Some? {
        assert ResolveAttendees(ids, directory) == [found.value] + rest;
        assert MemberIds([found.value] + rest) == [ids[0]] + MemberIds(rest);
      } else {
        assert ResolveAttendees(ids, directory) == rest;
      }
    }
  }

  /** Ids every directory entry knows resolve, and nothing else does: a
    * directory user is listed iff their id is. */
  lemma ResolveMember(ids: seq<UserId>, directory: seq<User>, user: User)
    requires user in directory
    ensures HasMember(ResolveAttendees(ids, directory), user.id) <==> user.id in ids
  {
    assert HasMember(directory, user.id);
  }

  /** Shown avatars: the first five attendees. */
  function ShownAvatars(attendees: seq<User>): (r: seq<User>)
    ensures |r| <= 5 && |r| <= |attendees|
    ensures r == attendees[..|r|]
    ensures |attendees| <= 5 ==> r == attendees
  {
    if |attendees| <= 5 then attendees else attendees[..5]
  }

  /** The "+n" bubble: present only beyond five attendees. */
  function Overflow(attendees: seq<User>): (r: Option<nat>)
    ensures r.Some? <==> |attendees| > 5
  {
    if |attendees| > 5 then Some(|attendees| - 5) else None
  }

  /** The avatars and the bubble account for every attendee. */
  lemma AvatarsAccountForAll(attendees: seq<User>)
    ensures |ShownAvatars(attendees)| + (if Overflow(attendees).Some? then Overflow(attendees).value else 0) == |attendees|
  {
  }

  /** One card's attendance state. */
  class EventCard {
    var isAttending: bool
    var attendees: seq<User>

    /** Attending starts as membership of the event's id list; the shown
      * list starts as the resolved ids. */
    constructor (event: Event, user: Option<User>, directory: seq<User>)
      ensures isAttending == (user.Some? && user.value.id in event.attendees)
      ensures attendees == ResolveAttendees(event.attendees, directory)
    {
      isAttending := user.Some? && user.value.id in event.attendees;
      attendees := ResolveAttendees(event.attendees, directory);
    }

    /** The flag agrees with the list for this user. */
    predicate Consistent(user: User)
      reads this
    {
      isAttending <==> HasMember(attendees, user.id)
    }

    /** handleRsvp: no user, no change; joining appends the user, leaving
      * removes every entry with the user's id. */
    method Rsvp(user: Option<User>)
      modifies this
      ensures user.None? ==> isAttending == old(isAttending) && attendees == old(attendees)
      ensures user.Some? ==> isAttending == !old(isAttending)
      ensures user.Some? && !old(isAttending) ==> attendees == old(attendees) + [user.value]
      ensures user.Some? && old(isAttending) ==>
        attendees == Filter(old(attendees), (a: User) => a.id != user.value.id)
      ensures user.Some? && old(Consistent(user.value)) ==> Consistent(user.value)
    {
      if user.None? {
        return;
      }
      var u := user.value;
      if !isAttending {
        assert u in attendees + [u];
        attendees := attendees + [u];
      } else {
        attendees := Filter(attendees, (a: User) => a.id != u.id);
      }
      isAttending := !isAttending;
    }
  }

  /** A signed-in user found in the directory starts consistent. */
  lemma InitiallyConsistent(event: Event, user: User, directory: seq<User>)
    requires user in directory
    ensures (user.id in event.attendees) <==> HasMember(ResolveAttendees(event.attendees, directory), user.id)
  {
    ResolveMember(event.attendees, directory, user);
  }
}
