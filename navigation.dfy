// Navigation: the sidebar's role-filtered links, the route guard, the
// layout's per-path chrome, and the back buttons of the sub-pages.

module Navigation {
  import opened Common
  import opened Domain

  datatype NavLink = NavLink(to: string, text: string, roles: seq<Role>)

  const Everyone: seq<Role> := [Student, Teacher, Admin]
  const Staff: seq<Role> := [Teacher, Admin]

  /** The sidebar's entries, in display order. */
  const NavLinks: seq<NavLink> := [
    NavLink("/home", "Home", Everyone),
    NavLink("/messages", "Messages", Everyone),
    NavLink("/groups", "Groups", Everyone),
    NavLink("/mailbox", "Mailbox", Everyone),
    NavLink("/events", "Events", Everyone),
    NavLink("/profile", "Profile", Everyone),
    NavLink("/settings", "Settings", Everyone),
    NavLink("/analytics", "Analytics", Staff),
    NavLink("/broadcast", "Broadcast", Staff)
  ]

  /** availableLinks: the entries open to the user's role; none without a user. */
  function AvailableLinks(user: Option<User>, links: seq<NavLink>): (r: seq<NavLink>)
    ensures user.None? ==> r == []
    ensures user.Some? ==> forall l :: l in r <==> l in links && user.value.role in l.roles
  {
    if user.None? then [] else Filter(links, (l: NavLink) => user.value.role in l.roles)
  }

  lemma AvailableInOrder(user: Option<User>, links: seq<NavLink>)
    ensures Subsequence(AvailableLinks(user, links), links)
  {
    if user.Some? {
      FilterKeepsOrder(links, (l: NavLink) => user.value.role in l.roles);
    }
  }

  /** Students get the seven general entries; teachers and administrators
    * also get Analytics and Broadcast. */
  lemma LinksPerRole(u: User)
    ensures u.role == Student ==> AvailableLinks(Some(u), NavLinks) == NavLinks[..7]
    ensures u.role != Student ==> AvailableLinks(Some(u), NavLinks) == NavLinks
  {
    var links := NavLinks;
    assert |links| == 9;
    assert forall i :: 0 <= i < 7 ==> links[i].roles == Everyone;
    assert forall i :: 7 <= i < 9 ==> links[i].roles == Staff;
    FilterPrefix(links, if u.role == Student then 7 else 9, (l: NavLink) => u.role in l.roles);
  }

  /** A filter that passes exactly the first k elements keeps that prefix. */
  lemma {:induction false} FilterPrefix<T(!new)>(s: seq<T>, k: nat, p: T -> bool)
    requires k <= |s|
    requires forall i :: 0 <= i < k ==> p(s[i])
    requires forall i :: k <= i < |s| ==> !p(s[i])
    ensures Filter(s, p) == s[..k]
    decreases |s|
  {
    if s != [] {
      FilterPrefix(s[1..], if k == 0 then 0 else k - 1, p);
      if k > 0 {
        assert s[..k] == [s[0]] + s[1..][..k - 1];
      }
    }
  }

  // --------------------------------------------------------- route guard

  datatype RouteOutcome = RedirectTo(path: string) | RenderChildren

  /** ProtectedRoute: unauthenticated visitors go to the sign-in page, a
    * signed-in user of another role goes home, the rest see the page;
    * an authenticated state without a user also sees the page. */
  function Guard(isAuthenticated: bool, user: Option<User>, allowedRoles: seq<Role>): (r: RouteOutcome)
    ensures !isAuthenticated ==> r == RedirectTo("/auth")
    ensures isAuthenticated && user.Some? && user.value.role !in allowedRoles ==> r == RedirectTo("/home")
    ensures r == RenderChildren <==> isAuthenticated && (user.None? || user.value.role in allowedRoles)
  {
    if !isAuthenticated then RedirectTo("/auth")
    else if user.Some? && user.value.role !in allowedRoles then RedirectTo("/home")
    else RenderChildren
  }

  /** A page guarded by the staff roles never renders for a student. */
  lemma StudentsKeptFromStaffPages(u: User)
    requires u.role == Student
    ensures Guard(true, Some(u), Staff) == RedirectTo("/home")
  {
  }

  // -------------------------------------------------------------- layout

  /** isChatPage: the path starts with "/messages" or "/groups". */
  predicate IsChatPage(path: string) {
    StartsWith(path, "/messages") || StartsWith(path, "/groups")
  }

  predicate ShowHeader(path: string) {
    path == "/home"
  }

  const BottomNavPaths: seq<string> := ["/home", "/groups", "/events", "/profile"]

  predicate ShowBottomNav(path: string) {
    path in BottomNavPaths
  }

  /** The content wrapper: chat pages fill the height with no padding;
    * other pages are padded, with extra room under the header and above
    * the bottom bar when those are shown. */
  datatype ContentBox = FullHeight | Padded(headerRoom: bool, bottomNavRoom: bool)

  function Content(path: string): (r: ContentBox)
    ensures IsChatPage(path) <==> r == FullHeight
    ensures r.Padded? ==> r.headerRoom == ShowHeader(path) && r.bottomNavRoom == ShowBottomNav(path)
  {
    if IsChatPage(path) then FullHeight else Padded(ShowHeader(path), ShowBottomNav(path))
  }

  /** The bottom bar shows on exactly the four top-level paths, so a group's
    * own page, which is a chat page, has no bottom bar and no padding. */
  lemma GroupPageChrome(id: string)
    ensures !ShowBottomNav("/groups/" + id) && !ShowHeader("/groups/" + id)
    ensures Content("/groups/" + id) == FullHeight
  {
    var p := "/groups/" + id;
    assert p[..7] == "/groups";
    assert p[7] == '/';
    assert |p| > 7;
    forall q | q in BottomNavPaths ensures q != p {
      assert |q| <= 7 || q[7] != '/';
    }
  }

  /** Only the home page has the header; it is padded on both sides. */
  lemma HomeChrome()
    ensures Content("/home") == Padded(true, true)
  {
    assert "/home"[1] == 'h';
    assert !StartsWith("/home", "/messages") && !StartsWith("/home", "/groups");
  }

  // --------------------------------------------------------- back button

  datatype Navigate = GoBack | ReplaceWith(path: string)

  /** handleBack of the sub-pages: back through the history when there is
    * an entry to go back to, otherwise replace the current entry with the
    * home page. */
  function BackTarget(historyIndex: Option<int>): (r: Navigate)
    ensures r == GoBack <==> historyIndex.Some? && historyIndex.value > 0
    ensures r != GoBack ==> r == ReplaceWith("/home")
  {
    if historyIndex.Some? && historyIndex.value > 0 then GoBack else ReplaceWith("/home")
  }
}
