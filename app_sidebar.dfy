/**
 * The faculty sidebar of `src/components/layout/AppSidebar.tsx`: which
 * navigation entry is highlighted for the current location. The router's
 * `location.pathname` is the parameter `currentPath`.
 */
module AppSidebar {

  datatype NavItem = NavItem(title: string, url: string)

  const Overview := NavItem("Overview", "/facultydashboard")
  const Students := NavItem("Student Management", "/facultydashboard/students")
  const Attendance := NavItem("Mark Attendance", "/facultydashboard/attendance")
  const Reports := NavItem("Reports", "/facultydashboard/reports")

  /** The entries, in menu order. */
  const NavigationItems: seq<NavItem> := [Overview, Students, Attendance, Reports]

  const ActiveClass := "bg-primary text-primary-foreground font-medium"

  /** `s.startsWith(p)` */
  predicate StartsWith(s: string, p: string) {
    |p| <= |s| && s[..|p|] == p
  }

  /**
   * `isActive`: the root entry only on the root itself; any other entry
   * wherever the current path begins with its URL.
   */
  function IsActive(path: string, currentPath: string): (r: bool)
    ensures path == "/" ==> (r <==> currentPath == "/")
    ensures path != "/" ==> (r <==> exists rest :: currentPath == path + rest)
  {
    assert StartsWith(currentPath, path) ==> currentPath == path + currentPath[|path|..];
    (path == "/" && currentPath == "/") || (path != "/" && StartsWith(currentPath, path))
  }

  /** Every entry is highlighted on its own page. */
  lemma ActiveOnItself(path: string)
    ensures IsActive(path, path)
  {
    assert path == path + [];
  }

  /** The Overview URL begins every other entry's URL. */
  lemma OverviewPrefixesAll(item: NavItem)
    requires item in NavigationItems
    ensures exists rest :: item.url == Overview.url + rest
  {
    if item == Students {
      assert item.url == Overview.url + "/students";
    } else if item == Attendance {
      assert item.url == Overview.url + "/attendance";
    } else if item == Reports {
      assert item.url == Overview.url + "/reports";
    } else {
      assert item.url == Overview.url + "";
    }
  }

  /** Whenever any entry is highlighted, so is Overview. */
  lemma OverviewCoActive(item: NavItem, currentPath: string)
    requires item in NavigationItems && IsActive(item.url, currentPath)
    ensures IsActive(Overview.url, currentPath)
  {
    OverviewPrefixesAll(item);
    var rest :| item.url == Overview.url + rest;
    var more :| currentPath == item.url + more;
    assert currentPath == Overview.url + (rest + more);
  }

  /** At most one of the three sub-page entries is highlighted at a time. */
  lemma SubpagesExclusive(a: NavItem, b: NavItem, currentPath: string)
    requires a in NavigationItems[1..] && b in NavigationItems[1..] && a != b
    requires IsActive(a.url, currentPath)
    ensures !IsActive(b.url, currentPath)
  {
    // The three URLs first differ at index 18: 's', 'a' or 'r'.
    assert Students.url[18] == 's' && Attendance.url[18] == 'a' && Reports.url[18] == 'r';
    assert |a.url| > 18 && |b.url| > 18 && a.url[18] != b.url[18];
    var more :| currentPath == a.url + more;
    assert currentPath[18] == a.url[18] != b.url[18];
  }

  /**
   * The match is on characters, not on path segments: Overview is also
   * highlighted on a path that merely begins with its URL.
   */
  lemma PrefixIgnoresSegments()
    ensures IsActive(Overview.url, "/facultydashboardx")
    ensures IsActive(Students.url, "/facultydashboard/students-archive")
  {
    assert "/facultydashboardx" == Overview.url + "x";
    assert "/facultydashboard/students-archive" == Students.url + "-archive";
  }

  /** `getNavCls`: the highlight classes exactly for an active entry, nothing otherwise. */
  function NavClass(path: string, currentPath: string): (r: string)
    ensures r == ActiveClass <==> IsActive(path, currentPath)
    ensures r == "" <==> !IsActive(path, currentPath)
  {
    if IsActive(path, currentPath) then ActiveClass else ""
  }
}
