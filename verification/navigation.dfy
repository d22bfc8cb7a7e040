/** The navigation hook of the public site: the page named by the browser's
    path, and the guarded, animated page change that pushes a new URL.

    The two timers of a page change are modelled as two further steps,
    `ShowPage` (after 600 ms) and `EndTransition` (after 1200 ms). */
module Navigation {
  import opened Wrappers
  import opened Routes

  /** The pages a path may name directly, besides admin and login. */
  const ValidPages: seq<Page> := [
    Front, About, Classifieds, Editorial, Contact,
    AdminProjects, AdminBlog, AdminProfile, AdminSkills, AdminConfig
  ]

  /** `pathname.slice(1)`. */
  function DropFirst(pathname: string): string {
    if |pathname| >= 1 then pathname[1..] else ""
  }

  /** `getPageFromPath`: the path without its first character names the
      page; an empty one is the front page; admin, login and the ten listed
      pages are recognised and everything else is 'not-found'. Together:
      every page's name is recognised. */
  function GetPageFromPath(pathname: string): (r: Page)
    ensures DropFirst(pathname) == "" ==> r == Front
    ensures DropFirst(pathname) != "" ==> r == PageNamed(DropFirst(pathname)).GetOr(NotFound)
  {
    var path := DropFirst(pathname);
    if path == "" then Front
    else if path == "admin" then
      assert Name(Admin) == path;
      Admin
    else if path == "login" then
      assert Name(Login) == path;
      Login
    else
      var found := FindByName(ValidPages, path);
      ListedPagesRecognised(path, found);
      if found.Some? then found.value else NotFound
  }

  /** Outside admin and login, the listed pages are all the named pages
      but 'not-found'. */
  lemma ListedPagesRecognised(path: string, found: Option<Page>)
    requires path != "admin" && path != "login"
    requires found == FindByName(ValidPages, path)
    ensures found == PageNamed(path) || (found.None? && PageNamed(path) == Some(NotFound))
  {
    match PageNamed(path)
    case Some(q) =>
      if q != NotFound {
        assert q != Admin && q != Login;
        ValidPagesCover(q);
        if found.Some? {
          NameInjective(found.value, q);
        }
      }
    case None =>
  }

  lemma ValidPagesCover(p: Page)
    requires p != NotFound && p != Admin && p != Login
    ensures p in ValidPages
  {
    match p
    case Front => assert ValidPages[0] == p;
    case About => assert ValidPages[1] == p;
    case Classifieds => assert ValidPages[2] == p;
    case Editorial => assert ValidPages[3] == p;
    case Contact => assert ValidPages[4] == p;
    case AdminProjects => assert ValidPages[5] == p;
    case AdminBlog => assert ValidPages[6] == p;
    case AdminProfile => assert ValidPages[7] == p;
    case AdminSkills => assert ValidPages[8] == p;
    case AdminConfig => assert ValidPages[9] == p;
  }

  /** No page name contains a slash, so a nested path such as
      "/admin/projects" is not recognised. */
  lemma NestedPathNotFound(pathname: string, i: int)
    requires 0 <= i < |DropFirst(pathname)| && DropFirst(pathname)[i] == '/'
    ensures GetPageFromPath(pathname) == NotFound
  {
    var path := DropFirst(pathname);
    match PageNamed(path)
    case Some(q) => NoSlashInName(q, i);
    case None =>
  }

  lemma NoSlashInName(p: Page, i: int)
    requires 0 <= i < |Name(p)|
    ensures Name(p)[i] != '/'
  {
  }

  /** The URL pushed when navigating to a page. */
  function PushedUrl(p: Page): (url: string)
    ensures |url| >= 1 && url[0] == '/'
    ensures DropFirst(url) == if p == Front then "" else Name(p)
  {
    if p == Front then "/" else "/" + Name(p)
  }

  /** Every page's pushed URL leads back to that page. */
  lemma PushedUrlRoundTrip(p: Page)
    ensures GetPageFromPath(PushedUrl(p)) == p
  {
  }

  /** The hook's state and the browser URL it last pushed. */
  datatype NavState = NavState(
    currentPage: Page,
    isTransitioning: bool,
    url: string,
    pending: Option<Page>)

  /** The initial state: the page of the browser's path. The fallback page
      is never used, since a path always names some page. */
  function Init(pathname: string, initialPage: Page): (st: NavState)
    ensures st.currentPage == GetPageFromPath(pathname)
    ensures !st.isTransitioning && st.url == pathname && st.pending.None?
  {
    NavState(GetPageFromPath(pathname), false, pathname, None)
  }

  /** `handleNavigation`: a request for the current page, or any request
      during a transition, is ignored; otherwise the transition starts, the
      URL is pushed and the page change is scheduled. */
  function Navigate(st: NavState, page: Page): (r: NavState)
    ensures page == st.currentPage || st.isTransitioning ==> r == st
    ensures page != st.currentPage && !st.isTransitioning ==>
      && r.isTransitioning
      && r.currentPage == st.currentPage
      && r.pending == Some(page)
      && GetPageFromPath(r.url) == page
  {
    if page == st.currentPage || st.isTransitioning then st
    else
      PushedUrlRoundTrip(page);
      st.(isTransitioning := true, url := PushedUrl(page), pending := Some(page))
  }

  /** The first timer: the scheduled page is shown. */
  function ShowPage(st: NavState): (r: NavState)
    ensures st.pending.Some? ==> r.currentPage == st.pending.value && r.pending.None?
    ensures r.isTransitioning == st.isTransitioning && r.url == st.url
  {
    match st.pending
    case Some(p) => st.(currentPage := p, pending := None)
    case None => st
  }

  /** The second timer: navigation is accepted again. */
  function EndTransition(st: NavState): (r: NavState)
    ensures !r.isTransitioning
    ensures r.currentPage == st.currentPage && r.url == st.url
  {
    st.(isTransitioning := false)
  }

  /** The browser's back and forward buttons: the page follows the path. */
  function PopState(st: NavState, pathname: string): (r: NavState)
    ensures r.currentPage == GetPageFromPath(pathname)
    ensures r.isTransitioning == st.isTransitioning
  {
    st.(currentPage := GetPageFromPath(pathname), url := pathname)
  }

  /** A completed navigation shows the requested page, whose URL the browser
      now holds, and a second request made mid-transition is dropped. */
  lemma NavigationCompletes(st: NavState, page: Page, other: Page)
    requires !st.isTransitioning && page != st.currentPage
    ensures var mid := Navigate(st, page);
      && Navigate(mid, other) == mid
      && var done := EndTransition(ShowPage(mid));
         done.currentPage == page && !done.isTransitioning
         && GetPageFromPath(done.url) == page
  {
  }
}
