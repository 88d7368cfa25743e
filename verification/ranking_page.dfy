/** The ranking page: perfumes of each gender ordered by their mean review rating, the ten
    best of each kept, and a tab choosing which list is shown. */
module RankingPage {
  import opened Sorting
  import Api

  const RankingSize: nat := 10

  function SumRatings(rs: seq<Api.Review>): int {
    if |rs| == 0 then 0 else SumRatings(rs[..|rs| - 1]) + rs[|rs| - 1].rating
  }

  /** `calculateAverage`: 0 for a perfume without reviews, the mean rating otherwise. */
  function Average(p: Api.Perfume): (a: real)
    ensures p.reviews.None? || |p.reviews.value| == 0 ==> a == 0.0
    ensures p.reviews.Some? && |p.reviews.value| > 0 ==>
      a * |p.reviews.value| as real == SumRatings(p.reviews.value) as real
  {
    if p.reviews.None? || |p.reviews.value| == 0 then 0.0
    else SumRatings(p.reviews.value) as real / |p.reviews.value| as real
  }

  /** A sum of ratings that all lie in `lo..hi` lies between `lo` and `hi` times the count. */
  lemma {:induction false} SumRatingsBounds(rs: seq<Api.Review>, lo: int, hi: int)
    requires forall i | 0 <= i < |rs| :: lo <= rs[i].rating <= hi
    ensures lo * |rs| <= SumRatings(rs) <= hi * |rs|
  {
    if |rs| > 0 {
      SumRatingsBounds(rs[..|rs| - 1], lo, hi);
    }
  }

  /** The mean of ratings that all lie in `lo..hi` lies in `lo..hi` too. */
  lemma AverageWithin(p: Api.Perfume, lo: int, hi: int)
    requires p.reviews.Some? && |p.reviews.value| > 0
    requires forall i | 0 <= i < |p.reviews.value| :: lo <= p.reviews.value[i].rating <= hi
    ensures lo as real <= Average(p) <= hi as real
  {
    var rs := p.reviews.value;
    SumRatingsBounds(rs, lo, hi);
    MeanWithin(SumRatings(rs), |rs|, lo, hi);
  }

  /** A total between `lo` and `hi` times a positive count has its mean between `lo` and
      `hi`. */
  lemma MeanWithin(sum: int, n: int, lo: int, hi: int)
    requires n > 0 && lo * n <= sum <= hi * n
    ensures lo as real <= sum as real / n as real <= hi as real
  {
    var a := sum as real / n as real;
    assert a * n as real == sum as real;
    ScaleBounds(sum, n, lo, hi);
    CancelPositive(a, n as real, lo as real, hi as real);
  }

  /** Integer bounds on a product survive the move to reals. */
  lemma ScaleBounds(s: int, n: int, lo: int, hi: int)
    requires lo * n <= s <= hi * n
    ensures lo as real * n as real <= s as real <= hi as real * n as real
  {
  }

  /** Bounds on a product with a positive factor carry over to the other factor. */
  lemma CancelPositive(a: real, n: real, lo: real, hi: real)
    requires n > 0.0 && lo * n <= a * n <= hi * n
    ensures lo <= a <= hi
  {
    if a < lo { MulStrict(a, lo, n); }
    if hi < a { MulStrict(hi, a, n); }
  }

  lemma MulStrict(x: real, y: real, n: real)
    requires x < y && n > 0.0
    ensures x * n < y * n
  {
  }

  function MinRating(rs: seq<Api.Review>): (m: int)
    requires |rs| > 0
    ensures exists i | 0 <= i < |rs| :: rs[i].rating == m
    ensures forall i | 0 <= i < |rs| :: m <= rs[i].rating
  {
    if |rs| == 1 then rs[0].rating
    else
      var m := MinRating(rs[1..]);
      assert forall i | 1 <= i < |rs| :: rs[i] == rs[1..][i - 1];
      if rs[0].rating <= m then rs[0].rating else m
  }

  function MaxRating(rs: seq<Api.Review>): (m: int)
    requires |rs| > 0
    ensures exists i | 0 <= i < |rs| :: rs[i].rating == m
    ensures forall i | 0 <= i < |rs| :: rs[i].rating <= m
  {
    if |rs| == 1 then rs[0].rating
    else
      var m := MaxRating(rs[1..]);
      assert forall i | 1 <= i < |rs| :: rs[i] == rs[1..][i - 1];
      if rs[0].rating >= m then rs[0].rating else m
  }

  /** A reviewed perfume's average lies between its lowest and its highest rating. */
  lemma AverageBetweenExtremes(p: Api.Perfume)
    requires p.reviews.Some? && |p.reviews.value| > 0
    ensures MinRating(p.reviews.value) as real <= Average(p) <= MaxRating(p.reviews.value) as real
  {
    AverageWithin(p, MinRating(p.reviews.value), MaxRating(p.reviews.value));
  }

  /** One gender's ranking: `perfumes.sort(sortByRating).slice(0, 10)`. */
  function TopTen(ps: seq<Api.Perfume>): (r: seq<Api.Perfume>)
    ensures |r| == if |ps| < RankingSize then |ps| else RankingSize
    ensures SortedDesc(r, Average)
    ensures multiset(r) <= multiset(ps)
    ensures forall i, q | 0 <= i < |r| && q in multiset(ps) - multiset(r) :: Average(r[i]) >= Average(q)
  {
    var sorted := SortDesc(ps, Average);
    var r := Take(sorted, RankingSize);
    TakeSortedDesc(sorted, Average, RankingSize);
    KeptOutrankDropped(ps, sorted, r);
    r
  }

  lemma KeptOutrankDropped(ps: seq<Api.Perfume>, sorted: seq<Api.Perfume>, r: seq<Api.Perfume>)
    requires SortedDesc(sorted, Average) && multiset(sorted) == multiset(ps)
    requires r == Take(sorted, RankingSize)
    ensures multiset(r) <= multiset(ps)
    ensures forall i, q | 0 <= i < |r| && q in multiset(ps) - multiset(r) :: Average(r[i]) >= Average(q)
  {
    TakeKeepsHighest(sorted, Average, RankingSize);
    TakeIsSubMultiset(sorted, RankingSize);
  }

  datatype Tab = Men | Women | Unisex

  datatype Rankings = Rankings(men: seq<Api.Perfume>, women: seq<Api.Perfume>, unisex: seq<Api.Perfume>)

  /** The rankings after the three gender lists load together; when any request fails the
      lists stay as they were (empty on first load). */
  function LoadRankings(current: Rankings, loaded: RankingLoad): (r: Rankings)
    ensures loaded.Failed? ==> r == current
    ensures loaded.Loaded? ==> r.men == TopTen(loaded.men) && r.women == TopTen(loaded.women) && r.unisex == TopTen(loaded.unisex)
  {
    match loaded
    case Failed => current
    case Loaded(m, w, u) => Rankings(TopTen(m), TopTen(w), TopTen(u))
  }

  /** The outcome of loading the men's, women's and unisex lists at once. */
  datatype RankingLoad = Failed | Loaded(men: seq<Api.Perfume>, women: seq<Api.Perfume>, unisex: seq<Api.Perfume>)

  /** `currentPerfumes`: the list of the active tab. */
  function Current(tab: Tab, rankings: Rankings): (r: seq<Api.Perfume>)
    ensures tab == Men ==> r == rankings.men
    ensures tab == Women ==> r == rankings.women
    ensures tab == Unisex ==> r == rankings.unisex
  {
    match tab
    case Men => rankings.men
    case Women => rankings.women
    case Unisex => rankings.unisex
  }
}
