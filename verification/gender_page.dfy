/** The catalogue page of one gender: the path-to-category lookup, the family and brand
    choices, the filter-then-sort pipeline, and "show more" pagination. */
module GenderPage {
  import opened Common
  import opened Text
  import opened Sorting
  import Api

  const ItemsPerPage: nat := 20

  datatype GenderConfig = GenderConfig(title: string, subtitle: string, filter: string)

  /** The three entries of the category table. */
  const MaleConfig := GenderConfig("Męskie", "Elegancja i charakter w każdej nucie", "Male")
  const FemaleConfig := GenderConfig("Damskie", "Subtelność i wyrafinowanie", "Female")
  const UnisexConfig := GenderConfig("Unisex", "Uniwersalne kompozycje bez granic", "Unisex")

  /** The position of the first `c` in `s`, or `|s|` when there is none. */
  function FirstIndex(s: string, c: char): (i: nat)
    ensures i <= |s| && c !in s[..i]
    ensures i < |s| ==> s[i] == c
    ensures i == |s| ==> c !in s
  {
    if |s| == 0 then 0
    else if s[0] == c then 0
    else
      var j := FirstIndex(s[1..], c);
      assert s[..j + 1] == [s[0]] + s[1..][..j];
      j + 1
  }

  /** `s.replace(c, '')` for a one-character pattern: only the first occurrence goes. */
  function RemoveFirst(s: string, c: char): (r: string)
    ensures c !in s ==> r == s
    ensures c in s ==> exists i | 0 <= i < |s| :: s[i] == c && c !in s[..i] && r == s[..i] + s[i + 1..]
  {
    var i := FirstIndex(s, c);
    if i < |s| then s[..i] + s[i + 1..] else s
  }

  /** `genderConfig[gender]` after the first slash of the path is dropped; the empty name
      has no configuration. */
  function ConfigFor(pathname: string): (c: Option<GenderConfig>)
    ensures c.Some? <==> var g := RemoveFirst(pathname, '/'); g == "male" || g == "female" || g == "unisex"
    ensures RemoveFirst(pathname, '/') == "male" ==> c == Some(MaleConfig)
    ensures RemoveFirst(pathname, '/') == "female" ==> c == Some(FemaleConfig)
    ensures RemoveFirst(pathname, '/') == "unisex" ==> c == Some(UnisexConfig)
  {
    var gender := RemoveFirst(pathname, '/');
    if gender == "" then None
    else if gender == "male" then Some(MaleConfig)
    else if gender == "female" then Some(FemaleConfig)
    else if gender == "unisex" then Some(UnisexConfig)
    else None
  }

  /** For a path that starts with a slash, as the router's paths do, there is a category
      exactly for the three gender paths, and its filter is the capitalised gender. */
  lemma {:induction false} RoutedCategories(pathname: string)
    requires |pathname| > 0 && pathname[0] == '/'
    ensures ConfigFor(pathname).Some? <==> pathname == "/male" || pathname == "/female" || pathname == "/unisex"
    ensures pathname == "/male" ==> ConfigFor(pathname).value.filter == "Male"
    ensures pathname == "/female" ==> ConfigFor(pathname).value.filter == "Female"
    ensures pathname == "/unisex" ==> ConfigFor(pathname).value.filter == "Unisex"
  {
    DropLeadingSlash(pathname);
    SameFirstCompare(pathname, "/male");
    SameFirstCompare(pathname, "/female");
    SameFirstCompare(pathname, "/unisex");
  }

  /** For a path that starts with a slash, that slash is the one removed. */
  lemma DropLeadingSlash(pathname: string)
    requires |pathname| > 0 && pathname[0] == '/'
    ensures RemoveFirst(pathname, '/') == pathname[1..]
  {
    assert FirstIndex(pathname, '/') == 0;
  }

  /** Two strings that start alike are equal exactly when the rests are. */
  lemma SameFirstCompare(p: string, q: string)
    requires |p| > 0 && |q| > 0 && p[0] == q[0]
    ensures p == q <==> p[1..] == q[1..]
  {
    if p[1..] == q[1..] {
      assert p == [p[0]] + p[1..] && q == [q[0]] + q[1..];
    }
  }

  /** What the page shows as its heading: the category title, or the unknown-category
      notice. */
  function Heading(pathname: string): (h: string)
    ensures ConfigFor(pathname).None? <==> h == "Nieznana kategoria"
  {
    match ConfigFor(pathname)
    case Some(c) => c.title
    case None => "Nieznana kategoria"
  }

  /** The values of one field over the perfumes, for the filter drop-downs. */
  function FieldValues(ps: seq<Api.Perfume>, field: Api.Perfume -> string): (r: seq<string>)
    ensures |r| == |ps| && forall i | 0 <= i < |ps| :: r[i] == field(ps[i])
  {
    seq(|ps|, i requires 0 <= i < |ps| => field(ps[i]))
  }

  function Identity(s: string): string { s }

  predicate NonEmpty(s: string) { s != "" }

  /** `[...new Set(ps.map(field).filter(Boolean))].sort()`: every non-empty value once,
      sorted. */
  function Choices(ps: seq<Api.Perfume>, field: Api.Perfume -> string): (r: seq<string>)
    ensures forall v :: v in r <==> v != "" && exists i | 0 <= i < |ps| :: field(ps[i]) == v
    ensures forall v | v in r :: multiset(r)[v] == 1
    ensures SortedAsc(r, Identity)
  {
    var values := FieldValues(ps, field);
    var unique := Dedupe(Filter(values, NonEmpty));
    var r := SortAsc(unique, Identity);
    ChoicesMembers(ps, field, values, unique, r);
    r
  }

  lemma ChoicesMembers(ps: seq<Api.Perfume>, field: Api.Perfume -> string, values: seq<string>, unique: seq<string>, r: seq<string>)
    requires values == FieldValues(ps, field)
    requires unique == Dedupe(Filter(values, NonEmpty))
    requires multiset(r) == multiset(unique)
    ensures forall v :: v in r <==> v != "" && exists i | 0 <= i < |ps| :: field(ps[i]) == v
    ensures forall v | v in r :: multiset(r)[v] == 1
  {
    forall v
      ensures v in r <==> v != "" && exists i | 0 <= i < |ps| :: field(ps[i]) == v
    {
      SameMembers(r, unique, v);
      FilterMembers(values, NonEmpty, v);
      if v in values {
        var i :| 0 <= i < |values| && values[i] == v;
        assert field(ps[i]) == v;
      }
    }
  }

  function FamilyOf(p: Api.Perfume): string { p.family }

  function BrandOf(p: Api.Perfume): string { p.brand }

  function NameOf(p: Api.Perfume): string { p.name }

  /** The family drop-down. */
  function Families(ps: seq<Api.Perfume>): (r: seq<string>)
    ensures forall v :: v in r <==> v != "" && exists i | 0 <= i < |ps| :: ps[i].family == v
    ensures forall v | v in r :: multiset(r)[v] == 1
    ensures SortedAsc(r, Identity)
  {
    Choices(ps, FamilyOf)
  }

  /** The brand drop-down. */
  function Brands(ps: seq<Api.Perfume>): (r: seq<string>)
    ensures forall v :: v in r <==> v != "" && exists i | 0 <= i < |ps| :: ps[i].brand == v
    ensures forall v | v in r :: multiset(r)[v] == 1
    ensures SortedAsc(r, Identity)
  {
    Choices(ps, BrandOf)
  }

  /** The page's filter and sort selections; "all" switches a drop-down filter off and the
      empty note switches the note filter off. */
  datatype Filters = Filters(family: string, brand: string, note: string, sortBy: string)

  /** Whether a perfume's ingredients mention the note, ignoring case; a perfume without
      ingredients mentions nothing. */
  predicate MentionsNote(p: Api.Perfume, note: string) {
    p.ingredients.Some? && Includes(Lower(p.ingredients.value), Lower(note))
  }

  /** The reference meaning of the filters: every active one holds. */
  predicate Matches(p: Api.Perfume, f: Filters) {
    && (f.family == "all" || p.family == f.family)
    && (f.brand == "all" || p.brand == f.brand)
    && (f.note == "" || MentionsNote(p, f.note))
  }

  /** The perfumes that satisfy every active filter, in their original order. */
  function Matching(ps: seq<Api.Perfume>, f: Filters): (r: seq<Api.Perfume>)
  {
    if |ps| == 0 then []
    else (if Matches(ps[0], f) then [ps[0]] else []) + Matching(ps[1..], f)
  }

  function ByFamily(family: string): Api.Perfume -> bool {
    (p: Api.Perfume) => p.family == family
  }

  function ByBrand(brand: string): Api.Perfume -> bool {
    (p: Api.Perfume) => p.brand == brand
  }

  function ByNote(note: string): Api.Perfume -> bool {
    (p: Api.Perfume) => MentionsNote(p, note)
  }

  function FamilyPass(ps: seq<Api.Perfume>, family: string): seq<Api.Perfume> {
    if family != "all" then Filter(ps, ByFamily(family)) else ps
  }

  function BrandPass(ps: seq<Api.Perfume>, brand: string): seq<Api.Perfume> {
    if brand != "all" then Filter(ps, ByBrand(brand)) else ps
  }

  function NotePass(ps: seq<Api.Perfume>, note: string): seq<Api.Perfume> {
    if note != "" then Filter(ps, ByNote(note)) else ps
  }

  /** The three filter passes in the order the page applies them. */
  function FilterPasses(ps: seq<Api.Perfume>, f: Filters): seq<Api.Perfume> {
    NotePass(BrandPass(FamilyPass(ps, f.family), f.brand), f.note)
  }

  /** The filter passes distribute over concatenation. */
  lemma PassesConcat(a: seq<Api.Perfume>, b: seq<Api.Perfume>, f: Filters)
    ensures FilterPasses(a + b, f) == FilterPasses(a, f) + FilterPasses(b, f)
  {
    FilterConcat(a, b, ByFamily(f.family));
    var fa := FamilyPass(a, f.family);
    var fb := FamilyPass(b, f.family);
    FilterConcat(fa, fb, ByBrand(f.brand));
    FilterConcat(BrandPass(fa, f.brand), BrandPass(fb, f.brand), ByNote(f.note));
  }

  /** A single perfume passes exactly when it satisfies all active filters. */
  lemma PassesSingleton(x: Api.Perfume, f: Filters)
    ensures FilterPasses([x], f) == if Matches(x, f) then [x] else []
  {
    assert [x] == [x] + [];
    FilterCons(x, [], ByFamily(f.family));
    var a := FamilyPass([x], f.family);
    if a == [x] {
      FilterCons(x, [], ByBrand(f.brand));
      var b := BrandPass(a, f.brand);
      if b == [x] {
        FilterCons(x, [], ByNote(f.note));
      }
    }
  }

  /** Applying the passes one after another keeps exactly the perfumes that satisfy all
      active filters, in their original order. */
  lemma {:induction false} FilterPassesAreMatching(ps: seq<Api.Perfume>, f: Filters)
    ensures FilterPasses(ps, f) == Matching(ps, f)
  {
    if |ps| > 0 {
      assert ps == [ps[0]] + ps[1..];
      PassesConcat([ps[0]], ps[1..], f);
      PassesSingleton(ps[0], f);
      FilterPassesAreMatching(ps[1..], f);
    }
  }

  /** `filteredPerfumes`: the perfumes satisfying every active filter, each as often as it
      was loaded, sorted by name or by brand when that is selected and otherwise in load
      order. */
  function FilteredPerfumes(ps: seq<Api.Perfume>, f: Filters): (r: seq<Api.Perfume>)
    ensures multiset(r) == multiset(Matching(ps, f))
    ensures f.sortBy == "name" ==> SortedAsc(r, NameOf)
    ensures f.sortBy == "brand" ==> SortedAsc(r, BrandOf)
    ensures f.sortBy != "name" && f.sortBy != "brand" ==> r == Matching(ps, f)
  {
    FilterPassesAreMatching(ps, f);
    var filtered := FilterPasses(ps, f);
    if f.sortBy == "name" then SortAsc(filtered, NameOf)
    else if f.sortBy == "brand" then SortAsc(filtered, BrandOf)
    else filtered
  }

  /** Every loaded perfume appears in the matching list exactly as often as it was loaded
      if it satisfies all active filters, and not at all otherwise. */
  lemma {:induction false} MatchingCount(ps: seq<Api.Perfume>, f: Filters, p: Api.Perfume)
    ensures multiset(Matching(ps, f))[p] == if Matches(p, f) then multiset(ps)[p] else 0
  {
    if |ps| > 0 {
      assert ps == [ps[0]] + ps[1..];
      MatchingCount(ps[1..], f, p);
    }
  }

  /** With a note filter active, a perfume without ingredients is never listed. */
  lemma NoteFilterDropsBareIngredients(ps: seq<Api.Perfume>, f: Filters, p: Api.Perfume)
    requires f.note != "" && p.ingredients.None?
    ensures p !in FilteredPerfumes(ps, f)
  {
    MatchingCount(ps, f, p);
    assert p !in multiset(FilteredPerfumes(ps, f));
  }

  /** `filteredPerfumes.slice(0, visibleCount)`. */
  function Visible(filtered: seq<Api.Perfume>, visibleCount: nat): (r: seq<Api.Perfume>)
    ensures |r| == if visibleCount < |filtered| then visibleCount else |filtered|
    ensures r == filtered[..|r|]
  {
    Take(filtered, visibleCount)
  }

  /** `visibleCount < filteredPerfumes.length`. */
  predicate HasMore(filtered: seq<Api.Perfume>, visibleCount: nat) {
    visibleCount < |filtered|
  }

  /** "Show more" is offered exactly when some filtered perfume is not shown. */
  lemma HasMoreIffHidden(filtered: seq<Api.Perfume>, visibleCount: nat)
    ensures HasMore(filtered, visibleCount) <==> |Visible(filtered, visibleCount)| < |filtered|
  {
  }

  datatype PageState = PageState(filters: Filters, visibleCount: nat)

  /** The state after the page opens, with the `note` query parameter if any. */
  function InitialState(noteParam: Option<string>): (s: PageState)
    ensures s.filters.family == "all" && s.filters.brand == "all" && s.filters.sortBy == "name"
    ensures s.filters.note == (if noteParam.Some? then noteParam.value else "")
    ensures s.visibleCount == ItemsPerPage
  {
    PageState(Filters("all", "all", noteParam.GetOr(""), "name"), ItemsPerPage)
  }

  datatype PageEvent =
    | ShowMore
    | SelectFamily(family: string)
    | SelectBrand(brand: string)
    | SelectSort(sortBy: string)
    | NoteParamChanged(note: Option<string>)
    | ClearNote
    | ClearFilters
    | CategoryLoaded

  /** How each control changes the page state. */
  function Step(s: PageState, e: PageEvent): (t: PageState)
    ensures e.ShowMore? ==> t == s.(visibleCount := s.visibleCount + ItemsPerPage)
    ensures e.SelectFamily? ==> t == PageState(s.filters.(family := e.family), ItemsPerPage)
    ensures e.SelectBrand? ==> t == PageState(s.filters.(brand := e.brand), ItemsPerPage)
    ensures e.SelectSort? ==> t == s.(filters := s.filters.(sortBy := e.sortBy))
    ensures e.NoteParamChanged? && e.note.Some? && e.note.value != "" ==> t == s.(filters := s.filters.(note := e.note.value))
    ensures e.NoteParamChanged? && (e.note.None? || e.note.value == "") ==> t == s
    ensures e.ClearNote? ==> t == s.(filters := s.filters.(note := ""))
    ensures e.ClearFilters? ==> t == s.(filters := s.filters.(family := "all", brand := "all", note := ""))
    ensures e.CategoryLoaded? ==> t == s.(visibleCount := ItemsPerPage)
  {
    match e
    case ShowMore => PageState(s.filters, s.visibleCount + ItemsPerPage)
    case SelectFamily(v) => PageState(Filters(v, s.filters.brand, s.filters.note, s.filters.sortBy), ItemsPerPage)
    case SelectBrand(v) => PageState(Filters(s.filters.family, v, s.filters.note, s.filters.sortBy), ItemsPerPage)
    case SelectSort(v) => PageState(Filters(s.filters.family, s.filters.brand, s.filters.note, v), s.visibleCount)
    case NoteParamChanged(n) =>
      if n.Some? && n.value != "" then PageState(Filters(s.filters.family, s.filters.brand, n.value, s.filters.sortBy), s.visibleCount)
      else s
    case ClearNote => PageState(Filters(s.filters.family, s.filters.brand, "", s.filters.sortBy), s.visibleCount)
    case ClearFilters => PageState(Filters("all", "all", "", s.filters.sortBy), s.visibleCount)
    case CategoryLoaded => PageState(s.filters, ItemsPerPage)
  }

  /** The page never shows fewer than one page of perfumes when that many match. */
  lemma {:induction false} VisibleCountAtLeastOnePage(s: PageState, e: PageEvent)
    requires s.visibleCount >= ItemsPerPage
    ensures Step(s, e).visibleCount >= ItemsPerPage
  {
  }

  /** "Show more" keeps what was shown and shows up to twenty more. */
  lemma ShowMoreExtends(ps: seq<Api.Perfume>, s: PageState)
    ensures var before := Visible(FilteredPerfumes(ps, s.filters), s.visibleCount);
            var after := Visible(FilteredPerfumes(ps, s.filters), Step(s, ShowMore).visibleCount);
            before <= after && |after| <= |before| + ItemsPerPage
  {
  }
}
