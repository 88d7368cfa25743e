/** The HTTP client layer of the web front end: the wire-to-view-model transform of perfumes
    and reviews, the request headers, and the classification of responses. */
module Api {
  import opened Common
  import opened Text

  const ApiBaseUrl: string := "http://localhost:8080/api"
  const ImageBaseUrl: string := "http://localhost:8080/images"

  datatype UserSummary = UserSummary(id: int, username: string)

  /** The logged-in user as the session keeps it. */
  datatype AuthUser = AuthUser(id: int, username: string, role: string)

  datatype Comment = Comment(id: int, text: string, createdAt: string, author: UserSummary)

  /** A perfume as the backend serialises it (snake_case names, ingredient list). */
  datatype RawPerfume = RawPerfume(
    id: int,
    namePerfume: string,
    brand: string,
    gender: string,
    family: string,
    subfamily: Option<string>,
    description: Option<string>,
    ingredients: Option<seq<string>>,
    imageName: Option<string>,
    reviews: NestedReviews)

  /** The optional `reviews` array of a serialised perfume (its own type rather than an
      `Option`, so that termination of the transform follows from the structure). */
  datatype NestedReviews = Absent | Present(items: seq<RawReview>)

  /** A review as the backend serialises it. */
  datatype RawReview = RawReview(
    id: int,
    text: string,
    rating: int,
    author: UserSummary,
    subject: Option<RawPerfume>,
    likes: Option<seq<UserSummary>>,
    likesCount: Option<int>,
    createdAt: Option<string>,
    comments: Option<seq<Comment>>)

  /** The view model of a perfume. */
  datatype Perfume = Perfume(
    id: int,
    name: string,
    brand: string,
    gender: string,
    family: string,
    subfamily: Option<string>,
    description: Option<string>,
    ingredients: Option<string>,
    imageUrl: Option<string>,
    reviews: Option<seq<Review>>)

  /** The view model of a review. */
  datatype Review = Review(
    id: int,
    text: string,
    rating: int,
    author: UserSummary,
    subject: Option<Perfume>,
    likes: Option<seq<UserSummary>>,
    likesCount: Option<int>,
    createdAt: Option<string>,
    comments: Option<seq<Comment>>)

  /** `raw.ingredients?.join(', ')`. */
  function JoinIngredients(ingredients: Option<seq<string>>): (r: Option<string>)
    ensures r.None? <==> ingredients.None?
  {
    match ingredients
    case None => None
    case Some(xs) => Some(Join(xs, ", "))
  }

  /** The image address: present exactly for a non-empty image name, which is recoverable as
      the part after the image base URL and a slash. */
  function ImageUrl(imageName: Option<string>): (r: Option<string>)
    ensures r.Some? <==> imageName.Some? && imageName.value != ""
    ensures r.Some? ==> StartsWith(r.value, ImageBaseUrl + "/")
    ensures r.Some? ==> r.value[|ImageBaseUrl| + 1..] == imageName.value
  {
    match imageName
    case Some(name) =>
      if name != "" then Some(ImageBaseUrl + "/" + name) else None
    case None => None
  }

  /** `transformPerfume`: `name_perfume` becomes `name`, the scalar fields are copied, the
      ingredients are joined, the image name becomes an address, and nested reviews are
      transformed one by one. */
  function TransformPerfume(raw: RawPerfume): (p: Perfume)
    ensures p.id == raw.id && p.name == raw.namePerfume && p.brand == raw.brand
    ensures p.gender == raw.gender && p.family == raw.family
    ensures p.subfamily == raw.subfamily && p.description == raw.description
    ensures p.ingredients == JoinIngredients(raw.ingredients) && p.imageUrl == ImageUrl(raw.imageName)
    ensures p.reviews.None? <==> raw.reviews.Absent?
    ensures raw.reviews.Present? ==> |p.reviews.value| == |raw.reviews.items|
    ensures raw.reviews.Present? ==> forall i | 0 <= i < |raw.reviews.items| ::
      p.reviews.value[i] == TransformReview(raw.reviews.items[i])
    decreases raw
  {
    Perfume(
      raw.id,
      raw.namePerfume,
      raw.brand,
      raw.gender,
      raw.family,
      raw.subfamily,
      raw.description,
      JoinIngredients(raw.ingredients),
      ImageUrl(raw.imageName),
      match raw.reviews
      case Absent => None
      case Present(rs) =>
        Some(seq(|rs|, i requires 0 <= i < |rs| => TransformReview(rs[i]))))
  }

  /** `transformReview`: every field is copied except the subject, which is transformed
      when present. */
  function TransformReview(raw: RawReview): (r: Review)
    ensures r.id == raw.id && r.text == raw.text && r.rating == raw.rating && r.author == raw.author
    ensures r.likes == raw.likes && r.likesCount == raw.likesCount
    ensures r.createdAt == raw.createdAt && r.comments == raw.comments
    ensures r.subject.Some? <==> raw.subject.Some?
    ensures raw.subject.Some? ==> r.subject.value == TransformPerfume(raw.subject.value)
    decreases raw
  {
    Review(
      raw.id,
      raw.text,
      raw.rating,
      raw.author,
      match raw.subject
      case None => None
      case Some(s) => Some(TransformPerfume(s)),
      raw.likes,
      raw.likesCount,
      raw.createdAt,
      raw.comments)
  }

  /** `authHeaders`: always the JSON content type; a bearer authorisation exactly when a
      non-empty token is stored. */
  function AuthHeaders(token: Option<string>): (h: map<string, string>)
    ensures "Content-Type" in h && h["Content-Type"] == "application/json"
    ensures "Authorization" in h <==> token.Some? && token.value != ""
    ensures "Authorization" in h ==> h["Authorization"] == "Bearer " + token.value
    ensures forall k | k in h :: k == "Content-Type" || k == "Authorization"
  {
    var base := map["Content-Type" := "application/json"];
    match token
    case Some(t) =>
      if t != "" then base["Authorization" := "Bearer " + t] else base
    case None => base
  }

  /** `fetch` reports `ok` for statuses 200 to 299. */
  predicate IsOkStatus(status: int) {
    200 <= status <= 299
  }

  datatype HttpResponse = HttpResponse(status: int, body: string)

  /** What `fetchApi` makes of a response. */
  datatype Fetched<J> = Failed(message: string) | EmptyObject | Parsed(value: J) | PlainText(text: string)

  /** `fetchApi` after the request: `parse` stands for `JSON.parse`, `None` meaning it throws. */
  function ClassifyResponse<J>(resp: HttpResponse, parse: string -> Option<J>): (r: Fetched<J>)
    ensures r.Failed? <==> !IsOkStatus(resp.status)
    ensures r.Failed? && resp.body != "" ==> r.message == resp.body
    ensures r.Failed? && resp.body == "" ==> r.message == "HTTP " + IntToString(resp.status)
    ensures r.EmptyObject? <==> IsOkStatus(resp.status) && resp.body == ""
    ensures r.Parsed? ==> resp.body != "" && parse(resp.body) == Some(r.value)
    ensures r.PlainText? <==> IsOkStatus(resp.status) && resp.body != "" && parse(resp.body).None?
    ensures r.PlainText? ==> r.text == resp.body
  {
    if !IsOkStatus(resp.status) then
      Failed(if resp.body != "" then resp.body else "HTTP " + IntToString(resp.status))
    else if resp.body == "" then EmptyObject
    else
      match parse(resp.body)
      case Some(v) => Parsed(v)
      case None => PlainText(resp.body)
  }

  /** The address every call goes to. */
  function RequestUrl(endpoint: string): (url: string)
    ensures StartsWith(url, ApiBaseUrl) && url[|ApiBaseUrl|..] == endpoint
  {
    ApiBaseUrl + endpoint
  }

  /** A failed call's error message is never empty: either the body, or "HTTP" and the
      status. */
  lemma FailureMessageNonEmpty<J>(resp: HttpResponse, parse: string -> Option<J>)
    requires !IsOkStatus(resp.status)
    ensures ClassifyResponse(resp, parse).Failed?
    ensures ClassifyResponse(resp, parse).message != ""
  {
  }
}
