/** The route table: the site's pages and the URL path of each, with the
    conversions both ways used by the router. */
module Routes {
  import opened Wrappers

  /** The `Page` union of the application. */
  datatype Page =
    | Front | About | Classifieds | Editorial | Contact | Login | Admin
    | AdminProjects | AdminBlog | AdminProfile | AdminSkills | AdminConfig | NotFound

  /** Every page, in the order the table lists them. */
  const AllPages: seq<Page> := [
    Front, About, Classifieds, Editorial, Contact, Login, Admin,
    AdminProjects, AdminBlog, AdminProfile, AdminSkills, AdminConfig, NotFound
  ]

  /** The string value of each page. */
  function Name(p: Page): string {
    match p
    case Front => "front"
    case About => "about"
    case Classifieds => "classifieds"
    case Editorial => "editorial"
    case Contact => "contact"
    case Login => "login"
    case Admin => "admin"
    case AdminProjects => "admin-projects"
    case AdminBlog => "admin-blog"
    case AdminProfile => "admin-profile"
    case AdminSkills => "admin-skills"
    case AdminConfig => "admin-config"
    case NotFound => "not-found"
  }

  /** `PAGE_TO_PATH`: every path is absolute. */
  function PageToPath(p: Page): (path: string)
    ensures |path| >= 1 && path[0] == '/'
  {
    match p
    case Front => "/"
    case About => "/about"
    case Classifieds => "/classifieds"
    case Editorial => "/editorial"
    case Contact => "/contact"
    case Login => "/login"
    case Admin => "/admin"
    case AdminProjects => "/admin/projects"
    case AdminBlog => "/admin/blog"
    case AdminProfile => "/admin/profile"
    case AdminSkills => "/admin/skills"
    case AdminConfig => "/admin/config"
    case NotFound => "/not-found"
  }

  lemma AllPagesComplete(p: Page)
    ensures p in AllPages
  {
    match p
    case Front => assert AllPages[0] == p;
    case About => assert AllPages[1] == p;
    case Classifieds => assert AllPages[2] == p;
    case Editorial => assert AllPages[3] == p;
    case Contact => assert AllPages[4] == p;
    case Login => assert AllPages[5] == p;
    case Admin => assert AllPages[6] == p;
    case AdminProjects => assert AllPages[7] == p;
    case AdminBlog => assert AllPages[8] == p;
    case AdminProfile => assert AllPages[9] == p;
    case AdminSkills => assert AllPages[10] == p;
    case AdminConfig => assert AllPages[11] == p;
    case NotFound => assert AllPages[12] == p;
  }

  /** No two pages share a path. */
  lemma PageToPathInjective(p: Page, q: Page)
    requires PageToPath(p) == PageToPath(q)
    ensures p == q
  {
  }

  /** No two pages share a name. */
  lemma NameInjective(p: Page, q: Page)
    requires Name(p) == Name(q)
    ensures p == q
  {
  }

  /** The first page of `pages` whose path is `path`. */
  function FindByPath(pages: seq<Page>, path: string): (r: Option<Page>)
    ensures r.Some? ==> r.value in pages && PageToPath(r.value) == path
    ensures r.None? ==> forall p :: p in pages ==> PageToPath(p) != path
  {
    if pages == [] then None
    else if PageToPath(pages[0]) == path then Some(pages[0])
    else FindByPath(pages[1..], path)
  }

  /** The first page of `pages` whose name is `name`. */
  function FindByName(pages: seq<Page>, name: string): (r: Option<Page>)
    ensures r.Some? ==> r.value in pages && Name(r.value) == name
    ensures r.None? ==> forall p :: p in pages ==> Name(p) != name
  {
    if pages == [] then None
    else if Name(pages[0]) == name then Some(pages[0])
    else FindByName(pages[1..], name)
  }

  /** The page with the given name, if any. */
  function PageNamed(name: string): (r: Option<Page>)
    ensures forall p :: Name(p) == name ==> r == Some(p)
    ensures r.Some? ==> Name(r.value) == name
  {
    match FindByName(AllPages, name)
    case Some(p) =>
      forall q | Name(q) == name ensures p == q {
        NameInjective(p, q);
      }
      Some(p)
    case None =>
      forall q ensures Name(q) != name {
        AllPagesComplete(q);
      }
      None
  }

  /** `pathToPage`: the page of a path in the table (`PATH_TO_PAGE` is the
      table read backwards), and 'not-found' for any other path. */
  function PathToPage(path: string): (r: Page)
    ensures forall p :: PageToPath(p) == path ==> r == p
    ensures (forall p :: PageToPath(p) != path) ==> r == NotFound
  {
    match FindByPath(AllPages, path)
    case Some(p) =>
      forall q | PageToPath(q) == path ensures p == q {
        PageToPathInjective(p, q);
      }
      p
    case None =>
      forall q ensures PageToPath(q) != path {
        AllPagesComplete(q);
      }
      NotFound
  }

  /** `pageToPath` on an arbitrary string: the table's path for a page's
      name, and otherwise "/" followed by the string. */
  function PageToPathOf(s: string): (path: string)
    ensures forall p :: Name(p) == s ==> path == PageToPath(p)
    ensures (forall p :: Name(p) != s) ==> path == "/" + s
  {
    match PageNamed(s)
    case Some(p) => PageToPath(p)
    case None => "/" + s
  }

  /** Every page survives the trip to its path and back. */
  lemma PageRoundTrip(p: Page)
    ensures PathToPage(PageToPath(p)) == p
    ensures PageToPathOf(Name(p)) == PageToPath(p)
  {
  }

  /** Every path of the table survives the trip to its page and back. */
  lemma PathRoundTrip(path: string, p: Page)
    requires PageToPath(p) == path
    ensures PageToPath(PathToPage(path)) == path
  {
  }
}
