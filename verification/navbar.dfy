/** The site navigation bar: live perfume search with a minimum query length and a short
    result list, and the secondary links with the active one highlighted. */
module Navbar {
  import opened Common
  import opened Sorting
  import Api
  import GenderPage

  const MinQueryLength: nat := 2
  const MaxResults: nat := 5

  datatype SearchState = SearchState(query: string, results: seq<Api.Perfume>, show: bool)

  /** `handleSearch` for one typed query: `backend` is how the search call ends and is
      consulted only when a search is issued. The second component says whether one was. */
  function HandleSearch(s: SearchState, query: string, backend: Answer<seq<Api.Perfume>>): (r: (SearchState, bool))
    ensures r.0.query == query
    ensures r.1 <==> |query| >= MinQueryLength
    ensures !r.1 ==> r.0.results == [] && !r.0.show
    ensures r.1 && backend.Returned? ==> |r.0.results| == if |backend.value| < MaxResults then |backend.value| else MaxResults
    ensures r.1 && backend.Returned? ==> r.0.results == backend.value[..|r.0.results|] && r.0.show
    ensures r.1 && backend.Threw? ==> r.0.results == [] && r.0.show == s.show
  {
    if |query| >= MinQueryLength then
      match backend
      case Returned(found) => (SearchState(query, Take(found, MaxResults), true), true)
      case Threw(_) => (SearchState(query, [], s.show), true)
    else (SearchState(query, [], false), false)
  }

  datatype SearchEvent = Typed(query: string, backend: Answer<seq<Api.Perfume>>) | Focus | Blur

  /** The search box's reaction to typing, focusing and leaving it (the delay before the
      list closes on leaving is not modelled). */
  function SearchStep(s: SearchState, e: SearchEvent): (t: SearchState)
    ensures e.Typed? ==> t == HandleSearch(s, e.query, e.backend).0
    ensures e.Focus? ==> t.query == s.query && t.results == s.results && t.show == (s.show || |s.results| > 0)
    ensures e.Blur? ==> t.query == s.query && t.results == s.results && !t.show
  {
    match e
    case Typed(q, b) => HandleSearch(s, q, b).0
    case Focus => if |s.results| > 0 then s.(show := true) else s
    case Blur => s.(show := false)
  }

  /** Starting from an empty box, no sequence of events shows more than five results. */
  lemma {:induction false} NeverMoreThanFiveResults(s: SearchState, events: seq<SearchEvent>)
    requires |s.results| <= MaxResults
    ensures |RunSearch(s, events).results| <= MaxResults
    decreases |events|
  {
    if |events| > 0 {
      NeverMoreThanFiveResults(SearchStep(s, events[0]), events[1..]);
    }
  }

  function RunSearch(s: SearchState, events: seq<SearchEvent>): SearchState
    decreases |events|
  {
    if |events| == 0 then s else RunSearch(SearchStep(s, events[0]), events[1..])
  }

  datatype NavLink = NavLink(path: string, text: string)

  /** The secondary navigation, in display order. */
  const NavLinks: seq<NavLink> := [
    NavLink("/male", "Mężczyzna"),
    NavLink("/female", "Kobieta"),
    NavLink("/unisex", "Unisex"),
    NavLink("/rankings", "Rankingi"),
    NavLink("/friends", "Znajomi")
  ]

  /** `isActive`: a link is highlighted exactly on its own path. */
  predicate IsActive(pathname: string, path: string) {
    pathname == path
  }

  /** At most one link is highlighted on any page, and one is exactly on the five link
      paths. */
  lemma AtMostOneActiveLink(pathname: string)
    ensures forall i, j | 0 <= i < |NavLinks| && 0 <= j < |NavLinks| ::
      IsActive(pathname, NavLinks[i].path) && IsActive(pathname, NavLinks[j].path) ==> i == j
    ensures (exists i | 0 <= i < |NavLinks| :: IsActive(pathname, NavLinks[i].path)) <==>
      pathname == "/male" || pathname == "/female" || pathname == "/unisex" || pathname == "/rankings" || pathname == "/friends"
  {
    if pathname == "/male" {
      assert IsActive(pathname, NavLinks[0].path);
    } else if pathname == "/female" {
      assert IsActive(pathname, NavLinks[1].path);
    } else if pathname == "/unisex" {
      assert IsActive(pathname, NavLinks[2].path);
    } else if pathname == "/rankings" {
      assert IsActive(pathname, NavLinks[3].path);
    } else if pathname == "/friends" {
      assert IsActive(pathname, NavLinks[4].path);
    }
  }

  /** The first three links open catalogues the gender page knows. */
  lemma GenderLinksHaveCategories()
    ensures GenderPage.ConfigFor(NavLinks[0].path) == Some(GenderPage.MaleConfig)
    ensures GenderPage.ConfigFor(NavLinks[1].path) == Some(GenderPage.FemaleConfig)
    ensures GenderPage.ConfigFor(NavLinks[2].path) == Some(GenderPage.UnisexConfig)
  {
    assert NavLinks[0].path == "/male" && NavLinks[1].path == "/female" && NavLinks[2].path == "/unisex";
  }
}
