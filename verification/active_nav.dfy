/**
 * `ActiveNav`: at page load, mark the navigation links that point at the
 * current page.
 */
module ActiveNavigation {
  import opened Options
  import Strings

  /** The page a bare directory path stands for. */
  const RootPage := "index.html"

  /** A link in `.nav-links`: its `href` attribute (`None` when missing) and its "active" marker. */
  datatype NavLink = NavLink(href: Option<string>, active: bool)

  /**
   * `location.pathname.split('/').pop() || 'index.html'`: the file name at the
   * end of the path, or the root page when the path is empty or ends in `/`.
   * It is never empty.
   */
  function CurrentPage(pathname: string): (page: string)
    ensures page != "" && '/' !in page
    ensures pathname == [] || pathname[|pathname| - 1] == '/' ==> page == RootPage
    ensures pathname != [] && pathname[|pathname| - 1] != '/' ==> Strings.IsLastSegment(pathname, page, '/')
  {
    Strings.LastSegmentIsSuffix(pathname, '/');
    var last := Strings.LastSegment(pathname, '/');
    if last == "" then RootPage else last
  }

  /** The page names of two typical paths. */
  lemma CurrentPageExamples()
    ensures CurrentPage("") == RootPage
    ensures CurrentPage("/") == RootPage
    ensures CurrentPage("/team.html") == "team.html"
    ensures CurrentPage("/site/team.html") == "team.html"
  {
    Strings.LastSegmentUnique("/team.html", CurrentPage("/team.html"), "team.html", '/');
    Strings.LastSegmentUnique("/site/team.html", CurrentPage("/site/team.html"), "team.html", '/');
  }

  /** The links after `init`: a link is marked when its `href` is the page; the rest keep their marker. */
  function Marked(page: string, links: seq<NavLink>): (r: seq<NavLink>)
    ensures |r| == |links|
    ensures forall i :: 0 <= i < |links| ==> r[i].href == links[i].href
    ensures forall i :: 0 <= i < |links| ==> links[i].href == Some(page) ==> r[i].active
    ensures forall i :: 0 <= i < |links| ==> links[i].href != Some(page) ==> r[i] == links[i]
  {
    seq(|links|, i requires 0 <= i < |links| =>
      if links[i].href == Some(page) then links[i].(active := true) else links[i])
  }

  /** On a fresh page (no link marked yet), exactly the links pointing at the page end up marked. */
  lemma MarkedExactly(page: string, links: seq<NavLink>)
    requires forall i :: 0 <= i < |links| ==> !links[i].active
    ensures forall i :: 0 <= i < |Marked(page, links)| ==> (Marked(page, links)[i].active <==> links[i].href == Some(page))
  {
  }

  /** `ActiveNav.init` over the links of `.nav-links`, for the path `pathname`. */
  method Init(links: array<NavLink>, pathname: string)
    modifies links
    ensures links[..] == Marked(CurrentPage(pathname), old(links[..]))
  {
    var currentPage := CurrentPage(pathname);
    for i := 0 to links.Length
      invariant forall j :: 0 <= j < i ==> links[j] == Marked(currentPage, old(links[..]))[j]
      invariant forall j :: i <= j < links.Length ==> links[j] == old(links[j])
    {
      var href := links[i].href;
      if href == Some(currentPage) || (currentPage == "" && href == Some(RootPage)) {
        links[i] := links[i].(active := true);
      }
    }
  }
}
