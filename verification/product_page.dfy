/** The product page of one perfume: routing from a clicked note to the catalogue of the
    perfume's gender, the ingredient list, the average rating, and the guards on the
    wishlist, owned and review actions. */
module ProductPage {
  import opened Common
  import opened Text
  import Api
  import GenderPage
  import RankingPage

  datatype Route = Route(path: string, query: string)

  /** The catalogue path of a perfume's gender, compared ignoring case; anything that is
      neither unisex nor female goes to the male catalogue. */
  function GenderPath(gender: string): (path: string)
    ensures Lower(gender) == "unisex" ==> path == "/unisex"
    ensures Lower(gender) == "female" ==> path == "/female"
    ensures Lower(gender) != "unisex" && Lower(gender) != "female" ==> path == "/male"
  {
    var g := Lower(gender);
    if g == "unisex" then "/unisex" else if g == "female" then "/female" else "/male"
  }

  /** `handleNoteClick`: nothing without a perfume; otherwise the catalogue of its gender
      with the note in the query (`encode` stands for `encodeURIComponent`). */
  function NoteClick(perfume: Option<Api.Perfume>, note: string, encode: string -> string): (r: Option<Route>)
    ensures r.None? <==> perfume.None?
    ensures r.Some? ==> r.value == Route(GenderPath(perfume.value.gender), "?note=" + encode(note))
  {
    match perfume
    case None => None
    case Some(p) => Some(Route(GenderPath(p.gender), "?note=" + encode(note)))
  }

  /** A note click always lands on a catalogue the gender page knows, and on the one whose
      filter is the perfume's gender when that gender is spelled like a filter. */
  lemma NoteClickLandsOnCategory(p: Api.Perfume, note: string, encode: string -> string)
    ensures GenderPage.ConfigFor(NoteClick(Some(p), note, encode).value.path).Some?
    ensures p.gender == "Male" || p.gender == "Female" || p.gender == "Unisex" ==>
      GenderPage.ConfigFor(NoteClick(Some(p), note, encode).value.path).value.filter == p.gender
  {
    var path := GenderPath(p.gender);
    assert NoteClick(Some(p), note, encode).value.path == path;
    GenderPage.RoutedCategories("/male");
    GenderPage.RoutedCategories("/female");
    GenderPage.RoutedCategories("/unisex");
    FilterNamesLowered();
  }

  /** The three gender filters in lower case. */
  lemma FilterNamesLowered()
    ensures Lower("Male") == "male" && Lower("Female") == "female" && Lower("Unisex") == "unisex"
  {
  }

  /** Gender names that differ only in ASCII case route to the same catalogue. */
  lemma GenderPathIgnoresCase(a: string, b: string)
    requires Lower(a) == Lower(b)
    ensures GenderPath(a) == GenderPath(b)
  {
  }

  function TrimAll(pieces: seq<string>): (r: seq<string>)
    ensures |r| == |pieces| && forall i | 0 <= i < |pieces| :: r[i] == Trim(pieces[i])
  {
    seq(|pieces|, i requires 0 <= i < |pieces| => Trim(pieces[i]))
  }

  /** `ingredientsList`: the ingredient string split at commas and trimmed piece by piece;
      no string gives no ingredients. */
  function IngredientsList(ingredients: Option<string>): (r: seq<string>)
    ensures ingredients.None? ==> r == []
    ensures ingredients.Some? ==> |r| >= 1
    ensures ingredients.Some? ==> forall i | 0 <= i < |r| :: ',' !in r[i] && Unpadded(r[i])
  {
    match ingredients
    case None => []
    case Some(s) =>
      var pieces := Split(s, ',');
      var r := TrimAll(pieces);
      assert forall i | 0 <= i < |r| :: ',' !in r[i] && Unpadded(r[i]) by {
        forall i | 0 <= i < |r|
          ensures ',' !in r[i] && Unpadded(r[i])
        {
          TrimIsUnpadded(pieces[i]);
          TrimIsSubstring(pieces[i]);
        }
      }
      r
  }

  /** Trimming only removes characters. */
  lemma TrimIsSubstring(s: string)
    ensures forall c | c in Trim(s) :: c in s
  {
    var t := TrimStart(s);
    assert forall c | c in TrimEnd(t) :: c in t by {
      assert TrimEnd(t) == t[..|TrimEnd(t)|];
    }
    assert forall c | c in t :: c in s by {
      assert t == s[|s| - |t|..];
    }
  }

  /** Joining a non-empty list of ingredients (as the API layer does) and splitting and
      trimming it again (as this page does) gives the list back, when no ingredient holds a
      comma or starts or ends with white space. */
  lemma IngredientsRoundTrip(xs: seq<string>)
    requires |xs| >= 1
    requires forall i | 0 <= i < |xs| :: ',' !in xs[i] && Unpadded(xs[i])
    ensures IngredientsList(Api.JoinIngredients(Some(xs))) == xs
  {
    var joined := Join(xs, ", ");
    assert Api.JoinIngredients(Some(xs)) == Some(joined);
    assert IngredientsList(Some(joined)) == TrimAll(Split(joined, ','));
    SplitJoined(xs);
    TrimPieces(xs, Split(joined, ','));
  }

  /** Splitting ingredients joined with ", " at the commas gives the first ingredient, then
      each following one behind its space. */
  lemma SplitJoined(xs: seq<string>)
    requires |xs| >= 1 && forall i | 0 <= i < |xs| :: ',' !in xs[i]
    ensures var pieces := Split(Join(xs, ", "), ',');
      |pieces| == |xs| && pieces[0] == xs[0] && forall i | 1 <= i < |xs| :: pieces[i] == " " + xs[i]
  {
    assert ", " == [',', ' '];
    assert "" + Join(xs, ", ") == Join(xs, ", ");
    SplitJoin("", xs, ',');
    assert "" + xs[0] == xs[0];
  }

  /** Trimming those pieces gives the ingredients back. */
  lemma TrimPieces(xs: seq<string>, pieces: seq<string>)
    requires |pieces| == |xs| >= 1 && pieces[0] == xs[0]
    requires forall i | 1 <= i < |xs| :: pieces[i] == " " + xs[i]
    requires forall i | 0 <= i < |xs| :: Unpadded(xs[i])
    ensures TrimAll(pieces) == xs
  {
    var r := TrimAll(pieces);
    forall i | 0 <= i < |xs|
      ensures r[i] == xs[i]
    {
      TrimUnpadded(xs[i]);
      if i == 0 {
        assert r[i] == Trim(xs[i]);
      } else {
        assert r[i] == Trim(" " + xs[i]);
      }
    }
    assert |r| == |xs|;
  }

  /** The round trip needs a non-empty list: no ingredients join to "" and come back as one
      empty ingredient. */
  lemma EmptyIngredientsDoNotRoundTrip()
    ensures IngredientsList(Api.JoinIngredients(Some([]))) == [""]
  {
    assert Join([], ", ") == "";
    assert Split("", ',') == [""];
    assert Trim("") == "";
  }

  /** The round trip needs clean ingredients: a list with an ingredient that holds a comma
      or starts or ends with white space never comes back unchanged. */
  lemma {:induction false} DirtyIngredientsDoNotRoundTrip(xs: seq<string>, k: nat)
    requires k < |xs| && (',' in xs[k] || !Unpadded(xs[k]))
    ensures IngredientsList(Api.JoinIngredients(Some(xs))) != xs
  {
    var r := IngredientsList(Api.JoinIngredients(Some(xs)));
    if r == xs {
      assert ',' !in r[k] && Unpadded(r[k]);
      assert false;
    }
  }

  datatype AverageRating = Unrated | Mean(value: real)

  /** `avgRating`: nothing to average without reviews, the mean rating otherwise (the page
      prints "0.0" for the first). */
  function AvgRating(reviews: seq<Api.Review>): (a: AverageRating)
    ensures a.Unrated? <==> |reviews| == 0
    ensures a.Mean? ==> a.value * |reviews| as real == RankingPage.SumRatings(reviews) as real
  {
    if |reviews| > 0 then Mean(RankingPage.SumRatings(reviews) as real / |reviews| as real) else Unrated
  }

  /** The product page's mean agrees with the ranking page's average of the same reviews,
      and lies between the lowest and highest rating. */
  lemma AvgRatingAgreesWithRanking(p: Api.Perfume, reviews: seq<Api.Review>)
    requires |reviews| > 0
    ensures AvgRating(reviews).value == RankingPage.Average(p.(reviews := Some(reviews)))
    ensures RankingPage.MinRating(reviews) as real <= AvgRating(reviews).value <= RankingPage.MaxRating(reviews) as real
  {
    RankingPage.AverageBetweenExtremes(p.(reviews := Some(reviews)));
  }

  datatype ListRequest = ListRequest(userId: int, perfumeId: int)

  /** The wishlist and owned buttons: nothing without a user or a perfume; otherwise the
      toggle request is sent and the message becomes the server's answer, or the error
      text ("Błąd" when the error has none). */
  function HandleListToggle(message: string, user: Option<Api.AuthUser>, perfume: Option<Api.Perfume>, call: Answer<string>)
    : (r: (string, Option<ListRequest>))
    ensures r.1.None? <==> user.None? || perfume.None?
    ensures r.1.None? ==> r.0 == message
    ensures r.1.Some? ==> r.1.value == ListRequest(user.value.id, perfume.value.id)
    ensures r.1.Some? && call.Returned? ==> r.0 == call.value
    ensures r.1.Some? && call.Threw? && call.message != "" ==> r.0 == call.message
    ensures r.1.Some? && call.Threw? && call.message == "" ==> r.0 == "Błąd"
  {
    if user.None? || perfume.None? then (message, None)
    else
      var request := Some(ListRequest(user.value.id, perfume.value.id));
      match call
      case Returned(answer) => (answer, request)
      case Threw(m) => (if m != "" then m else "Błąd", request)
  }

  datatype ReviewForm = ReviewForm(text: string, rating: int, submitting: bool, message: string)

  datatype CreateReviewRequest = CreateReviewRequest(perfumeId: int, userId: int, text: string, rating: int)

  const DefaultRating: int := 5

  /** `handleSubmitReview`: ignored without a user, without a perfume or with blank text;
      otherwise the review is sent as typed, and on success the form is reset and the page
      reloads, while on failure the form is kept and the error is shown. */
  function HandleSubmitReview(form: ReviewForm, user: Option<Api.AuthUser>, perfume: Option<Api.Perfume>, call: Answer<()>)
    : (r: (ReviewForm, Option<CreateReviewRequest>, bool))
    ensures r.1.None? <==> user.None? || perfume.None? || AllSpace(form.text)
    ensures r.1.None? ==> r.0 == form && !r.2
    ensures r.1.Some? ==> r.1.value == CreateReviewRequest(perfume.value.id, user.value.id, form.text, form.rating)
    ensures r.1.Some? ==> !r.0.submitting
    ensures r.1.Some? && call.Returned? ==> r.0.text == "" && r.0.rating == DefaultRating && r.0.message == form.message && r.2
    ensures r.1.Some? && call.Threw? ==> r.0.text == form.text && r.0.rating == form.rating && !r.2
    ensures r.1.Some? && call.Threw? ==> r.0.message == if call.message != "" then call.message else "Błąd dodawania opinii"
  {
    TrimEmptyIffAllSpace(form.text);
    if user.None? || perfume.None? || Trim(form.text) == "" then (form, None, false)
    else
      var request := Some(CreateReviewRequest(perfume.value.id, user.value.id, form.text, form.rating));
      match call
      case Returned(_) => (ReviewForm("", DefaultRating, false, form.message), request, true)
      case Threw(m) =>
        (ReviewForm(form.text, form.rating, false, if m != "" then m else "Błąd dodawania opinii"), request, false)
  }
}
