/** The five-star rating widget: which stars are lit, and how clicks and hovering behave,
    with a read-only mode that ignores both. */
module StarRating {
  import opened Common

  /** The stars rendered, in order, each standing for its rating value. */
  const Stars: seq<int> := [1, 2, 3, 4, 5]

  lemma FiveStars()
    ensures |Stars| == 5 && forall k | 0 <= k < |Stars| :: Stars[k] == k + 1
  {
  }

  /** The value the display follows: the hovered star while hovering, the rating
      otherwise. */
  function Shown(hover: int, rating: int): (v: int)
    ensures hover != 0 ==> v == hover
    ensures hover == 0 ==> v == rating
  {
    if hover != 0 then hover else rating
  }

  /** Star `star` is lit when the shown value reaches it. */
  predicate IsLit(star: int, hover: int, rating: int) {
    Shown(hover, rating) >= star
  }

  /** The lit flags of the five stars. */
  function LitStars(hover: int, rating: int): (lit: seq<bool>)
    ensures |lit| == |Stars|
    ensures forall k | 0 <= k < |Stars| :: lit[k] <==> k < Shown(hover, rating)
  {
    seq(|Stars|, k requires 0 <= k < |Stars| => IsLit(Stars[k], hover, rating))
  }

  /** The lit stars always form a prefix: lighting a star lights every star before it. */
  lemma LitStarsArePrefix(hover: int, rating: int)
    ensures forall j, k | 0 <= j <= k < |Stars| :: LitStars(hover, rating)[k] ==> LitStars(hover, rating)[j]
  {
  }

  datatype WidgetState = WidgetState(hover: int)

  /** Mouse events on the widget: click, enter and leave; `Click` and `Enter` name a rendered
      star by position. */
  datatype StarEvent = Click(position: nat) | Enter(position: nat) | Leave

  predicate OnStar(e: StarEvent) {
    (e.Click? || e.Enter?) ==> e.position < |Stars|
  }

  /** One event: the new hover value and the rating reported to the owner, if any. */
  function Handle(s: WidgetState, e: StarEvent, readOnly: bool): (r: (WidgetState, Option<int>))
    requires OnStar(e)
    ensures readOnly ==> r.0 == s && r.1.None?
    ensures r.1.Some? ==> e.Click? && r.1.value == e.position + 1 && 1 <= r.1.value <= 5
    ensures !readOnly && e.Click? ==> r.1.Some? && r.0 == s
    ensures !readOnly && e.Enter? ==> r.0.hover == e.position + 1 && r.1.None?
    ensures !readOnly && e.Leave? ==> r.0.hover == 0 && r.1.None?
  {
    if readOnly then (s, None)
    else
      match e
      case Click(k) => (s, Some(Stars[k]))
      case Enter(k) => (WidgetState(Stars[k]), None)
      case Leave => (WidgetState(0), None)
  }

  /** After the mouse leaves an editable widget the display follows the rating again. */
  lemma LeaveShowsRating(s: WidgetState, rating: int)
    ensures LitStars(Handle(s, Leave, false).0.hover, rating) == LitStars(0, rating)
    ensures forall k | 0 <= k < |Stars| :: LitStars(Handle(s, Leave, false).0.hover, rating)[k] <==> k < rating
  {
  }

  /** A read-only widget never reports a rating and its display never changes, whatever the
      mouse does. */
  lemma {:induction false} ReadOnlyIsInert(s: WidgetState, events: seq<StarEvent>)
    requires forall i | 0 <= i < |events| :: OnStar(events[i])
    ensures Run(s, events, true) == (s, [])
    decreases |events|
  {
    if |events| > 0 {
      assert Handle(s, events[0], true) == (s, None);
      ReadOnlyIsInert(s, events[1..]);
      var rest := Run(s, events[1..], true);
      assert Run(s, events, true).1 == [] + rest.1;
    }
  }

  /** Every rating an editable widget reports is one of the five star values. */
  lemma {:induction false} ReportsAreStarValues(s: WidgetState, events: seq<StarEvent>)
    requires forall i | 0 <= i < |events| :: OnStar(events[i])
    ensures forall k | 0 <= k < |Run(s, events, false).1| :: 1 <= Run(s, events, false).1[k] <= 5
    decreases |events|
  {
    if |events| > 0 {
      ReportsAreStarValues(Handle(s, events[0], false).0, events[1..]);
    }
  }

  /** The widget's reaction to a sequence of events, with every rating reported. */
  function Run(s: WidgetState, events: seq<StarEvent>, readOnly: bool): (WidgetState, seq<int>)
    requires forall i | 0 <= i < |events| :: OnStar(events[i])
    decreases |events|
  {
    if |events| == 0 then (s, [])
    else
      var step := Handle(s, events[0], readOnly);
      var rest := Run(step.0, events[1..], readOnly);
      (rest.0, (if step.1.Some? then [step.1.value] else []) + rest.1)
  }
}
