/**
 A carousel showing `items` of its `n` slides at a time: moving by arrows, page buttons, dragging and autoplay,
 and the two numberings of its pages, one kept on the slides and one on the page buttons.
 */
module Carousel {
  import opened Wrappers
  import opened Numbers

  datatype Direction = Forward | Backward

  datatype Options = Options(scrollPerPage: bool, goToFirstNav: bool, goToFirst: bool, pagination: bool)

  // A page button: the slide it leads to and the number it bears.
  datatype Button = Button(slide: int, page: nat)

  // ---- arrows ----

  function Stride(o: Options, items: nat): nat { if o.scrollPerPage then items else 1 }

  // The slide an arrow leads to: one stride on, cut at the end; from the last slide on to the first, or nowhere.
  function NextOf(o: Options, items: nat, max: nat, s: nat): (t: nat)
    requires 1 <= items && s <= max
    ensures t <= max
  {
    if s == max then (if o.goToFirstNav then 0 else max) else Min(s + Stride(o, items), max)
  }

  function PrevOf(o: Options, items: nat, max: nat, s: nat): (t: nat)
    requires 1 <= items && s <= max
    ensures t <= max
  {
    if s == 0 then (if o.goToFirstNav then max else 0) else Max(s - Stride(o, items), 0)
  }

  // When the back arrow undoes the forward arrow.
  lemma NextThenPrev(o: Options, items: nat, max: nat, s: nat)
    requires 1 <= items && s <= max
    ensures PrevOf(o, items, max, NextOf(o, items, max, s)) == s <==>
      if s == max then o.goToFirstNav || max == 0 else s == 0 || s + Stride(o, items) <= max
  {
  }

  // ---- page numbers ----

  function Pages(n: nat, items: nat): nat
    requires 1 <= items
  {
    (n + items - 1) / items
  }

  // The page of a slide: whole pages before it, except that the last position is a page of its own.
  function PageOf(n: nat, items: nat, s: nat): nat
    requires 1 <= items <= n
  {
    if s < n - items then s / items + 1 else Pages(n, items)
  }

  // The slide the button of a page leads to: the last page is moved back to be full.
  function TargetOf(n: nat, items: nat, page: nat): int
    requires 1 <= items <= n && 1 <= page
  {
    Min((page - 1) * items, n - items)
  }

  lemma DivUnique(a: int, k: nat, q: int, r: nat)
    requires k > 0 && a == q * k + r && r < k
    ensures a / k == q && a % k == r
  {
    var e := a / k - q;
    assert e * k == r - a % k by {
      assert a == (a / k) * k + a % k;
      assert (a / k - q) * k == (a / k) * k - q * k;
    }
    NotSmall(e, k);
  }

  lemma NotSmall(e: int, k: nat)
    ensures e >= 1 ==> e * k >= k
    ensures e <= -1 ==> e * k + k <= 0
  {
    if e >= 1 {
      assert (e - 1) * k >= 0;
    } else if e <= -1 {
      assert (e + 1) * k <= 0;
    }
  }

  lemma DivParts(a: nat, k: nat) returns (q: nat, r: nat)
    requires k > 0
    ensures a == q * k + r && r < k && q == a / k && r == a % k
  {
    q, r := a / k, a % k;
  }

  // One slide further: the quotient goes up exactly at the multiples.
  lemma DivStep(a: nat, k: nat)
    requires k > 0
    ensures (a + 1) / k == a / k + if (a + 1) % k == 0 then 1 else 0
    ensures (a + 1) % k == 0 <==> a % k == k - 1
  {
    var q, r := DivParts(a, k);
    if r == k - 1 {
      assert (q + 1) * k == q * k + k;
      DivUnique(a + 1, k, q + 1, 0);
    } else {
      DivUnique(a + 1, k, q, r + 1);
    }
  }

  // The number of pages counted from the start of the last page.
  lemma PagesFromLast(n: nat, items: nat)
    requires 1 <= items <= n
    ensures var last := n - items; Pages(n, items) == last / items + if last % items == 0 then 1 else 2
  {
    var q, r := DivParts(n - items, items);
    assert (q + 1) * items == q * items + items && (q + 2) * items == q * items + 2 * items;
    if r == 0 {
      DivUnique(n + items - 1, items, q + 1, items - 1);
    } else {
      DivUnique(n + items - 1, items, q + 2, r - 1);
    }
  }

  lemma Product(a: nat, b: nat, k: nat)
    requires a <= b
    ensures a * k <= b * k
  {
    assert (b - a) * k >= 0;
  }

  // Every page number is reached by its own button and only by it.
  lemma ButtonReachesPage(n: nat, items: nat, page: nat)
    requires 1 <= items <= n && 1 <= page <= Pages(n, items)
    ensures 0 <= TargetOf(n, items, page) <= n - items
    ensures PageOf(n, items, TargetOf(n, items, page)) == page
  {
    PagesFromLast(n, items);
    var q, r := DivParts(n - items, items);
    if page - 1 <= q {
      Product(page - 1, q, items);
      DivUnique((page - 1) * items, items, page - 1, 0);
      if (page - 1) * items == n - items {
        DivUnique(n - items, items, page - 1, 0);
      }
    } else {
      assert page == q + 2 && (q + 1) * items == q * items + items;
    }
  }

  lemma PageInRange(n: nat, items: nat, s: nat)
    requires 1 <= items <= n
    ensures 1 <= PageOf(n, items, s) <= Pages(n, items)
  {
    PagesFromLast(n, items);
    if s < n - items {
      var q, r := DivParts(n - items, items);
      var q', r' := DivParts(s, items);
      assert (q + 1) * items == q * items + items;
      if q' > q {
        Product(q + 1, q', items);
      }
    }
  }

  // The page of a slide is the only button number to match it, and its button goes back to the page's start.
  lemma OneButtonMatches(n: nat, items: nat, s: nat)
    requires 1 <= items <= n && s <= n - items
    ensures forall b :: 0 <= b < |Buttons(n, items)| ==>
      (Buttons(n, items)[b].page == PageOf(n, items, s) <==> b == PageOf(n, items, s) - 1)
    ensures 0 <= PageOf(n, items, s) - 1 < |Buttons(n, items)|
    ensures Buttons(n, items)[PageOf(n, items, s) - 1].slide <= s
  {
    PageInRange(n, items, s);
    if s < n - items {
      var q, r := DivParts(s, items);
    }
  }

  function Buttons(n: nat, items: nat): (bs: seq<Button>)
    requires 1 <= items <= n
    ensures |bs| == Pages(n, items)
  {
    seq(Pages(n, items), b requires 0 <= b < Pages(n, items) => Button(TargetOf(n, items, b + 1), b + 1))
  }

  // Scrolling by pages: a forward step goes to the next page exactly when it is not cut, or the last position
  // starts a whole page, or it lies within the slide's own page; otherwise it skips a page.
  lemma NextPage(o: Options, n: nat, items: nat, s: nat)
    requires 1 <= items <= n && s < n - items && o.scrollPerPage
    ensures var last := n - items;
      PageOf(n, items, NextOf(o, items, last, s)) == PageOf(n, items, s) +
        if s + items < last || last % items == 0 || s / items == last / items then 1 else 2
  {
    hide Pages;
    PagesFromLast(n, items);
    OneStride(s, n - items, items);
  }

  // One stride covers at most one multiple.
  lemma OneStride(s: nat, last: nat, items: nat)
    requires 1 <= items && s < last
    ensures (s + items) / items == s / items + 1
    ensures last <= s + items ==>
      (last / items == s / items && last % items != 0) || last / items == s / items + 1
  {
    var q, r := DivParts(s, items);
    var next := (q + 1) * items;
    assert next == q * items + items;
    DivUnique(s + items, items, q + 1, r);
    if last < next {
      DivUnique(last, items, q, last - q * items);
    } else if last <= s + items {
      DivUnique(last, items, q + 1, last - next);
    }
  }

  // A backward step goes to the page before, except that it stays on the first page, and that it skips a page
  // from the end exactly when the last page is not a whole one and not only the first is left.
  lemma PrevPage(o: Options, n: nat, items: nat, s: nat)
    requires 1 <= items <= n && 0 < s <= n - items && o.scrollPerPage
    ensures var last := n - items;
      PageOf(n, items, PrevOf(o, items, last, s)) == PageOf(n, items, s) -
        if s < last then (if s < items then 0 else 1) else if last % items == 0 || last < items then 1 else 2
  {
    hide Pages;
    PagesFromLast(n, items);
    StrideBack(s, items);
  }

  lemma StrideBack(s: nat, items: nat)
    requires 1 <= items
    ensures s < items ==> s / items == 0 && s % items == s && 0 / items == 0
    ensures items <= s ==> (s - items) / items == s / items - 1
  {
    var q, r := DivParts(s, items);
    assert (q - 1) * items == q * items - items;
    if s < items {
      DivUnique(s, items, 0, s);
      DivUnique(0, items, 0, 0);
    } else {
      DivUnique(s - items, items, q - 1, r);
    }
  }

  // ---- positions ----

  // The left edge of every slide, and of the end, in pixels; slides lie to the left of the frame as they pass.
  function Positions(n: nat, width: nat): (p: seq<int>)
    ensures |p| == n + 1
  {
    seq(n + 1, i => -(i * width))
  }

  // The browser rounds halves up.
  function ItemWidth(total: nat, items: nat): nat
    requires 1 <= items
  {
    (2 * total + items) / (2 * items)
  }

  // So a slide is the nearest whole number of pixels, the larger of two.
  lemma ItemWidthIsNearest(total: nat, items: nat)
    requires 1 <= items
    ensures var w := ItemWidth(total, items); 2 * total - items < 2 * items * w <= 2 * total + items
  {
    var q, r := DivParts(2 * total + items, 2 * items);
    assert q * (2 * items) == 2 * items * q;
  }

  ghost predicate Between(p: seq<int>, i: nat, x: real) {
    i + 1 < |p| && p[i + 1] as real < x < p[i] as real
  }

  // One of the first `k` slides lies across the place.
  ghost predicate Crossed(p: seq<int>, k: nat, x: real) {
    exists i: nat :: i < k && Between(p, i, x)
  }

  lemma PositionsFall(n: nat, width: nat, i: nat, j: nat)
    requires i <= j <= n
    ensures Positions(n, width)[j] <= Positions(n, width)[i]
  {
    Product(i, j, width);
  }

  // At most one slide lies across a given place.
  lemma BetweenOnce(n: nat, width: nat, i: nat, j: nat, x: real)
    requires Between(Positions(n, width), i, x) && Between(Positions(n, width), j, x)
    ensures i == j
  {
    if i < j {
      PositionsFall(n, width, i + 1, j);
    } else if j < i {
      PositionsFall(n, width, j + 1, i);
    }
  }

  // The place looked at when the drag ends: a twentieth of a slide ahead of the frame.
  function Ahead(width: nat, x: real, moved: real): real {
    if moved < 0.0 then x + width as real / 20.0 else x - width as real / 20.0
  }

  // The slide meant by a drag that ends at `x`: of the slide lying across the place ahead, the far side when
  // moving on, the near side when moving back; the slide as it was when there is none.
  ghost function Snapped(n: nat, width: nat, s: nat, x: real, moved: real): (t: nat)
    requires s <= n
    ensures t <= n
  {
    var p := Positions(n, width);
    if exists i: nat :: Between(p, i, Ahead(width, x, moved)) then
      var i: nat :| Between(p, i, Ahead(width, x, moved)); if moved < 0.0 then i + 1 else i
    else s
  }

  ghost function DragOf(n: nat, items: nat, width: nat, s: nat, x: real, moved: real): (t: nat)
    requires 1 <= items <= n && s <= n - items
    ensures t <= n - items
  {
    if x == 0.0 then s
    else
      var t := Snapped(n, width, s, x, moved);
      if t > n - items then n - items else if x >= 0.0 then 0 else t
  }

  // A drag comes to rest within 21 twentieths of a slide of where it ended, unless it is cut at the last slide.
  lemma DragLandsNear(n: nat, items: nat, width: nat, s: nat, x: real, moved: real, i: nat)
    requires 1 <= items <= n && s <= n - items && x < 0.0
    requires Between(Positions(n, width), i, Ahead(width, x, moved))
    ensures var t := DragOf(n, items, width, s, x, moved);
      && t == Min(if moved < 0.0 then i + 1 else i, n - items)
      && (t < n - items ==>
        && -(21.0 * width as real / 20.0) < Positions(n, width)[t] as real - x < 21.0 * width as real / 20.0
        && (moved < 0.0 ==> Positions(n, width)[t] as real < x + width as real / 20.0)
        && (moved >= 0.0 ==> x - width as real / 20.0 < Positions(n, width)[t] as real))
  {
    var t := Snapped(n, width, s, x, moved);
    forall j: nat | Between(Positions(n, width), j, Ahead(width, x, moved)) ensures j == i {
      BetweenOnce(n, width, i, j, Ahead(width, x, moved));
    }
    assert Positions(n, width)[i] - Positions(n, width)[i + 1] == width by {
      assert (i + 1) * width == i * width + width;
    }
  }

  // ---- the view over a run ----

  datatype View = View(items: nat, width: nat, slide: nat, dir: Direction)

  ghost predicate InRange(n: nat, v: View) {
    1 <= v.items <= n && v.slide <= n - v.items
  }

  type Positive = x: nat | 1 <= x witness 1

  datatype Event =
    | Next | Prev | GoTo(position: int) | Click(button: nat) | Drag(x: real, moved: real)
    | Resize(wanted: Positive, total: nat) | Tick

  function Clamped(position: int, max: nat): (s: nat)
    ensures s <= max && (0 <= position <= max ==> s == position)
    ensures (position < 0 ==> s == 0) && (max < position ==> s == max)
  {
    Max(0, Min(position, max))
  }

  // A resize keeps the slide only when it stands before the new last position, and only with a width.
  function Resized(n: nat, v: View, wanted: Positive, total: nat): (r: View)
    requires 1 <= n
    ensures InRange(n, r)
  {
    var items := Min(wanted, n);
    var width := ItemWidth(total, items);
    View(items, width, if v.slide < n - items && width > 0 then v.slide else 0, v.dir)
  }

  // In terms of what the caller knows: the slide survives a resize exactly when it is the first one, or stands
  // before the new last position and the frame has half a pixel for each visible slide.
  lemma ResizeKeeps(n: nat, v: View, wanted: Positive, total: nat)
    requires 1 <= n
    ensures var items := Min(wanted, n);
      && Resized(n, v, wanted, total).items == items
      && (Resized(n, v, wanted, total).slide == v.slide <==> v.slide == 0 || (v.slide < n - items && items <= 2 * total))
  {
    var items := Min(wanted, n);
    var q, r := DivParts(2 * total + items, 2 * items);
    if q >= 1 {
      NotSmall(q, 2 * items);
    } else {
      assert q * (2 * items) == 0;
    }
  }

  // One step of autoplay: on to the end, then back or, if asked, to the first slide at once.
  function Ticked(o: Options, n: nat, v: View): (r: View)
    requires 1 <= v.items <= n && v.slide <= n - v.items
    ensures InRange(n, r)
  {
    var max := n - v.items;
    if v.slide < max && v.dir == Forward then v.(slide := NextOf(o, v.items, max, v.slide))
    else if v.slide == max then
      if o.goToFirst then v.(slide := 0) else v.(slide := PrevOf(o, v.items, max, v.slide), dir := Backward)
    else if v.slide > 0 then v.(slide := PrevOf(o, v.items, max, v.slide))
    else v.(slide := NextOf(o, v.items, max, v.slide), dir := Forward)
  }

  // Whether the dragging direction was asked for at all, which also turns autoplay around.
  ghost predicate Asked(n: nat, width: nat, x: real) {
    || Crossed(Positions(n, width), n, x - width as real / 20.0)
    || Crossed(Positions(n, width), n, x + width as real / 20.0)
  }

  ghost function Dragged(n: nat, v: View, x: real, moved: real): View
    requires InRange(n, v)
  {
    v.(slide := DragOf(n, v.items, v.width, v.slide, x, moved),
       dir := if x != 0.0 && Asked(n, v.width, x) then Heading(moved) else v.dir)
  }

  // A click happens on a button that is there.
  ghost function Step(o: Options, n: nat, v: View, ev: Event): (r: View)
    requires InRange(n, v)
    ensures InRange(n, r)
  {
    var max := n - v.items;
    match ev
    case Next => v.(slide := NextOf(o, v.items, max, v.slide))
    case Prev => v.(slide := PrevOf(o, v.items, max, v.slide))
    case GoTo(position) => v.(slide := Clamped(position, max))
    case Click(b) =>
      if b < Pages(n, v.items) then
        ButtonReachesPage(n, v.items, b + 1);
        v.(slide := TargetOf(n, v.items, b + 1))
      else v
    case Drag(x, moved) => Dragged(n, v, x, moved)
    case Resize(wanted, total) => Resized(n, v, wanted, total)
    case Tick => Ticked(o, n, v)
  }

  ghost function Run(o: Options, n: nat, v: View, evs: seq<Event>): (r: View)
    requires InRange(n, v)
    ensures InRange(n, r)
  {
    if evs == [] then v else Step(o, n, Run(o, n, v, evs[..|evs| - 1]), evs[|evs| - 1])
  }

  // After every run the slide is in range, exactly one button bears the number of its page, and clicking that
  // button stays on the page.
  lemma RunKeepsPage(o: Options, n: nat, v: View, evs: seq<Event>)
    requires InRange(n, v)
    ensures var r := Run(o, n, v, evs);
      && r.slide <= n - r.items
      && var page := PageOf(n, r.items, r.slide);
      && (forall b :: 0 <= b < |Buttons(n, r.items)| ==> (Buttons(n, r.items)[b].page == page <==> b == page - 1))
      && 0 <= page - 1 < |Buttons(n, r.items)|
      && PageOf(n, r.items, Run(o, n, v, evs + [Click(page - 1)]).slide) == page
  {
    hide PageOf, Pages, TargetOf, Buttons, Step, Run;
    var r := Run(o, n, v, evs);
    OneButtonMatches(n, r.items, r.slide);
    var page := PageOf(n, r.items, r.slide);
    RunThen(o, n, v, evs, Click(page - 1));
    ClickReaches(o, n, r, page);
  }

  lemma RunThen(o: Options, n: nat, v: View, evs: seq<Event>, ev: Event)
    requires InRange(n, v)
    ensures Run(o, n, v, evs + [ev]) == Step(o, n, Run(o, n, v, evs), ev)
  {
    hide Step;
    assert (evs + [ev])[..|evs|] == evs;
  }

  lemma ClickReaches(o: Options, n: nat, v: View, page: nat)
    requires InRange(n, v) && 1 <= page <= |Buttons(n, v.items)|
    ensures PageOf(n, v.items, Step(o, n, v, Click(page - 1)).slide) == page
  {
    hide PageOf, TargetOf, Pages;
    ButtonReachesPage(n, v.items, page);
  }

  // Asked to go to the first slide, autoplay by single slides goes round: the slide after t steps is t modulo
  // the number of positions.
  lemma {:induction false} AutoplayGoesRound(o: Options, n: nat, v: View, t: nat)
    requires !o.scrollPerPage && o.goToFirst && InRange(n, v) && v.slide == 0 && v.dir == Forward
    ensures Ticks(o, n, v, t) == v.(slide := t % (n - v.items + 1))
  {
    var k := n - v.items + 1;
    if t == 0 {
      DivUnique(0, k, 0, 0);
    } else {
      AutoplayGoesRound(o, n, v, t - 1);
      DivStep(t - 1, k);
      var q, r := DivParts(t - 1, k);
      if r < k - 1 {
        DivUnique(t, k, q, r + 1);
      }
    }
  }

  // Autoplay by single slides goes to and fro: the slide after t steps is a triangle wave.
  function Ticks(o: Options, n: nat, v: View, t: nat): (r: View)
    requires 1 <= v.items <= n && v.slide <= n - v.items
    ensures InRange(n, r)
  {
    if t == 0 then v else Ticked(o, n, Ticks(o, n, v, t - 1))
  }

  lemma {:induction false} AutoplayIsWave(o: Options, n: nat, v: View, t: nat)
    requires !o.scrollPerPage && !o.goToFirst && InRange(n, v) && v.slide == 0 && v.dir == Forward && v.items < n
    ensures var max := n - v.items; var phase := t % (2 * max); var r := Ticks(o, n, v, t);
      && r.items == v.items && r.slide == (if phase <= max then phase else 2 * max - phase)
      && (0 < phase < max ==> r.dir == Forward) && (phase > max ==> r.dir == Backward)
      && (phase == max ==> r.dir == Forward) && (phase == 0 && t > 0 ==> r.dir == Backward)
  {
    var max := n - v.items;
    if t == 0 {
      DivUnique(0, 2 * max, 0, 0);
    } else {
      AutoplayIsWave(o, n, v, t - 1);
      var q, r := DivParts(t - 1, 2 * max);
      if r == 2 * max - 1 {
        assert (q + 1) * (2 * max) == q * (2 * max) + 2 * max;
        DivUnique(t, 2 * max, q + 1, 0);
      } else {
        DivUnique(t, 2 * max, q, r + 1);
      }
    }
  }

  // ---- the carousel object ----

  class Slider {
    const o: Options
    const n: nat
    var items: nat
    var itemWidth: nat
    var positionsInArray: seq<int>
    var maximumSlide: int
    var maximumPixels: int
    var currentSlide: int
    var playDirection: Direction
    var roundPages: seq<nat>
    var buttons: seq<Button>
    var active: Option<nat>

    // Everything computed from the number of visible slides and their width.
    ghost predicate Sized()
      reads this
    {
      && 1 <= items <= n
      && positionsInArray == Positions(n, itemWidth)
      && maximumSlide == n - items && maximumPixels == -((n - items) * itemWidth)
      && |roundPages| == n && (forall i :: 0 <= i < n ==> roundPages[i] == PageOf(n, items, i))
      && (if o.pagination then buttons == Buttons(n, items) else buttons == [])
    }

    // The active button bears the page number stored on the current slide.
    ghost predicate Valid()
      reads this
    {
      && Sized()
      && 0 <= currentSlide <= maximumSlide
      && (o.pagination ==>
        active.Some? && active.value < |buttons| && buttons[active.value].page == roundPages[currentSlide])
    }

    ghost function Value(): View
      requires 0 <= currentSlide
      reads this
    {
      View(items, itemWidth, currentSlide, playDirection)
    }

    constructor (o: Options, n: nat, wanted: Positive, total: nat)
      requires 1 <= n
      ensures Valid() && this.o == o && this.n == n
      ensures Value() == View(Min(wanted, n), ItemWidth(total, Min(wanted, n)), 0, Forward)
    {
      this.o, this.n := o, n;
      items, itemWidth, currentSlide, playDirection := wanted, 0, 0, Forward;
      positionsInArray, roundPages, buttons, active := [], [], [], None;
      new;
      UpdateItems(wanted);
      CalculateAll(total);
      UpdatePagination();
    }

    method UpdateItems(wanted: Positive)
      requires 1 <= n
      modifies this`items
      ensures items == Min(wanted, n)
    {
      items := wanted;
      if items > n {
        items := n;
      }
    }

    method CalculateAll(total: nat)
      requires 1 <= items <= n
      modifies this`itemWidth, this`roundPages, this`positionsInArray, this`maximumSlide, this`maximumPixels
      ensures itemWidth == ItemWidth(total, items)
      ensures positionsInArray == Positions(n, itemWidth)
      ensures maximumSlide == n - items && maximumPixels == -((n - items) * itemWidth)
      ensures |roundPages| == n && (forall i :: 0 <= i < n ==> roundPages[i] == PageOf(n, items, i))
    {
      itemWidth := (2 * total + items) / (2 * items);
      roundPages := AppendItemsSizes(n, items);
      positionsInArray := Loops(n, itemWidth);
      maximumSlide := n - items;
      maximumPixels := -(n * itemWidth - items * itemWidth);
      assert (n - items) * itemWidth == n * itemWidth - items * itemWidth;
    }

    method UpdatePagination()
      requires 1 <= items <= n && 0 <= currentSlide <= n - items
      requires |roundPages| == n && (forall i :: 0 <= i < n ==> roundPages[i] == PageOf(n, items, i))
      modifies this`buttons, this`active
      ensures o.pagination ==> buttons == Buttons(n, items) && active == Some(PageOf(n, items, currentSlide) - 1)
      ensures !o.pagination ==> buttons == old(buttons) && active == old(active)
    {
      if o.pagination {
        buttons := PageButtons(n, items);
        active := None;
        CheckPagination();
      }
    }

    // Looks through all buttons and makes each one that matches the only active one.
    method CheckPagination()
      requires 1 <= items <= n && 0 <= currentSlide <= n - items && buttons == Buttons(n, items)
      requires |roundPages| == n && (forall i :: 0 <= i < n ==> roundPages[i] == PageOf(n, items, i))
      modifies this`active
      ensures active == Some(PageOf(n, items, currentSlide) - 1)
    {
      OneButtonMatches(n, items, currentSlide);
      var i := 0;
      while i < |buttons|
        invariant 0 <= i <= |buttons|
        invariant PageOf(n, items, currentSlide) - 1 < i ==> active == Some(PageOf(n, items, currentSlide) - 1)
      {
        if buttons[i].page == roundPages[currentSlide] {
          active := Some(i);
        }
        i := i + 1;
      }
    }

    method GoTo(position: int)
      requires Sized()
      modifies this`currentSlide, this`active
      ensures Valid() && currentSlide == Clamped(position, n - items)
    {
      var p := position;
      if p >= maximumSlide {
        p := maximumSlide;
      } else if p <= 0 {
        p := 0;
      }
      currentSlide := p;
      if o.pagination {
        CheckPagination();
        OneButtonMatches(n, items, currentSlide);
      }
    }

    method Next()
      requires Valid()
      modifies this`currentSlide, this`active
      ensures Valid() && Value() == Step(o, n, old(Value()), Event.Next)
    {
      currentSlide := currentSlide + if o.scrollPerPage then items else 1;
      if currentSlide > maximumSlide + if o.scrollPerPage then items - 1 else 0 {
        if o.goToFirstNav {
          currentSlide := 0;
        } else {
          currentSlide := maximumSlide;
          return;
        }
      }
      GoTo(currentSlide);
    }

    method Prev()
      requires Valid()
      modifies this`currentSlide, this`active
      ensures Valid() && Value() == Step(o, n, old(Value()), Event.Prev)
    {
      if o.scrollPerPage && currentSlide > 0 && currentSlide < items {
        currentSlide := 0;
      } else {
        currentSlide := currentSlide - if o.scrollPerPage then items else 1;
      }
      if currentSlide < 0 {
        if o.goToFirstNav {
          currentSlide := maximumSlide;
        } else {
          currentSlide := 0;
          return;
        }
      }
      GoTo(currentSlide);
    }

    method Click(b: nat)
      requires Valid() && b < |buttons|
      modifies this`currentSlide, this`active
      ensures Valid() && active == Some(b) && roundPages[currentSlide] == buttons[b].page
      ensures Value() == Step(o, n, old(Value()), Event.Click(b))
    {
      ButtonReachesPage(n, items, b + 1);
      if buttons[b].slide != currentSlide {
        GoTo(buttons[b].slide);
      }
      OneButtonMatches(n, items, currentSlide);
    }

    method UpdatePosition()
      requires items <= n && positionsInArray == Positions(n, itemWidth) && 0 <= currentSlide <= n
      requires maximumPixels == -((n - items) * itemWidth)
      modifies this`currentSlide
      ensures currentSlide == if old(currentSlide) < n - items && itemWidth > 0 then old(currentSlide) else 0
    {
      ScaledLess(currentSlide, n - items, itemWidth);
      if positionsInArray[currentSlide] <= maximumPixels {
        currentSlide := 0;
      }
    }

    method UpdateVars(wanted: Positive, total: nat)
      requires Valid()
      modifies this
      ensures Valid() && Value() == Step(o, n, old(Value()), Event.Resize(wanted, total))
    {
      UpdateItems(wanted);
      CalculateAll(total);
      UpdatePosition();
      UpdatePagination();
      OneButtonMatches(n, items, currentSlide);
    }

    method Tick()
      requires Valid()
      modifies this`currentSlide, this`active, this`playDirection
      ensures Valid() && Value() == Step(o, n, old(Value()), Event.Tick)
    {
      if currentSlide < maximumSlide && playDirection == Forward {
        Next();
      } else if currentSlide == maximumSlide {
        if o.goToFirst {
          GoTo(0);
        } else {
          playDirection := Backward;
          Prev();
        }
      } else if playDirection == Backward && currentSlide > 0 {
        Prev();
      } else if playDirection == Backward && currentSlide == 0 {
        playDirection := Forward;
        Next();
      }
    }

    method ImproveClosest(x: real, moved: real)
      requires Sized() && 0 <= currentSlide <= n
      modifies this`currentSlide, this`playDirection
      ensures currentSlide == Snapped(n, itemWidth, old(currentSlide), x, moved)
      ensures playDirection ==
        if Asked(n, itemWidth, x) then Heading(moved) else old(playDirection)
    {
      currentSlide, playDirection := Closest(n, itemWidth, positionsInArray, currentSlide, playDirection, x, moved);
    }

    // The drag ends at `x` after the pointer moved by `moved`.
    method DragEnd(x: real, moved: real)
      requires Valid()
      modifies this`currentSlide, this`active, this`playDirection
      ensures Valid() && Value() == Step(o, n, old(Value()), Event.Drag(x, moved))
    {
      if x != 0.0 {
        ImproveClosest(x, moved);
        var position := currentSlide;
        if position > maximumSlide {
          currentSlide := maximumSlide;
          position := maximumSlide;
        } else if x >= 0.0 {
          position := 0;
          currentSlide := 0;
        }
        GoTo(position);
      }
    }
  }

  function Heading(moved: real): Direction { if moved < 0.0 then Forward else Backward }

  // Looks at all places in turn; asking for the direction also stores it for autoplay.
  method Closest(n: nat, width: nat, p: seq<int>, s: nat, dir: Direction, x: real, moved: real)
    returns (slide: nat, playDirection: Direction)
    requires s <= n && p == Positions(n, width)
    ensures slide == Snapped(n, width, s, x, moved)
    ensures playDirection == if Asked(n, width, x) then Heading(moved) else dir
  {
    hide Positions;
    var near, far := x - width as real / 20.0, x + width as real / 20.0;
    ghost var ahead := Ahead(width, x, moved);
    slide, playDirection := s, dir;
    var i := 0;
    while i < |p|
      invariant 0 <= i <= |p|
      invariant slide <= n
      invariant forall k: nat :: k < i && Between(p, k, ahead) ==> slide == if moved < 0.0 then k + 1 else k
      invariant !Crossed(p, i, ahead) ==> slide == s
      invariant playDirection == if Crossed(p, i, near) || Crossed(p, i, far) then Heading(moved) else dir
    {
      CrossedStep(p, i, near);
      CrossedStep(p, i, far);
      CrossedStep(p, i, ahead);
      OnlyHere(n, width, i, ahead);
      var taken := false;
      if i + 1 < |p| && near > p[i + 1] as real && near < p[i] as real {
        playDirection := Heading(moved);
        if Heading(moved) == Backward {
          slide := i;
          taken := true;
        }
      }
      if !taken && far < p[i] as real && i + 1 < |p| && far > p[i + 1] as real {
        playDirection := Heading(moved);
        if Heading(moved) == Forward {
          slide := i + 1;
        }
      }
      i := i + 1;
    }
    CrossedAll(p, near);
    CrossedAll(p, far);
    CrossedAll(p, ahead);
  }

  lemma CrossedStep(p: seq<int>, i: nat, x: real)
    ensures Crossed(p, i + 1, x) <==> Crossed(p, i, x) || Between(p, i, x)
  {
  }

  lemma CrossedAll(p: seq<int>, x: real)
    requires |p| > 0
    ensures Crossed(p, |p|, x) <==> Crossed(p, |p| - 1, x)
  {
  }

  lemma OnlyHere(n: nat, width: nat, i: nat, x: real)
    ensures Between(Positions(n, width), i, x) ==> forall k: nat :: Between(Positions(n, width), k, x) ==> k == i
  {
    if Between(Positions(n, width), i, x) {
      forall k: nat | Between(Positions(n, width), k, x) ensures k == i {
        BetweenOnce(n, width, k, i, x);
      }
    }
  }

  lemma ScaledLess(a: nat, b: nat, k: nat)
    ensures a * k < b * k <==> a < b && k > 0
  {
    if a < b {
      assert (b - a) * k >= 0;
      NotSmall(b - a, k);
    } else {
      Product(b, a, k);
    }
  }

  // The slides count up a page at every multiple and once more at the last position.
  method AppendItemsSizes(n: nat, items: nat) returns (pages: seq<nat>)
    requires 1 <= items <= n
    ensures |pages| == n && forall i :: 0 <= i < n ==> pages[i] == PageOf(n, items, i)
  {
    PagesFromLast(n, items);
    var roundPages := 0;
    var lastItem := n - items;
    pages := [];
    var index := 0;
    while index < n
      invariant 0 <= index <= n && |pages| == index
      invariant roundPages == if index == 0 then 0 else PageOf(n, items, index - 1)
      invariant forall i :: 0 <= i < index ==> pages[i] == PageOf(n, items, i)
    {
      if index > 0 {
        DivStep(index - 1, items);
      }
      if index % items == 0 || index == lastItem {
        if !(index > lastItem) {
          roundPages := roundPages + 1;
        }
      }
      pages := pages + [roundPages];
      index := index + 1;
    }
  }

  method Loops(n: nat, width: nat) returns (p: seq<int>)
    ensures p == Positions(n, width)
  {
    p := [0];
    var elWidth := 0;
    var i := 0;
    while i < n
      invariant 0 <= i <= n && |p| == i + 1 && elWidth == i * width
      invariant forall k :: 0 <= k <= i ==> p[k] == -(k * width)
    {
      assert (i + 1) * width == i * width + width;
      elWidth := elWidth + width;
      p := p + [-elWidth];
      i := i + 1;
    }
  }

  // The buttons are counted at every multiple; only the last one is moved back when the page is not whole.
  method PageButtons(n: nat, items: nat) returns (buttons: seq<Button>)
    requires 1 <= items <= n
    ensures buttons == Buttons(n, items)
  {
    var counter := 0;
    var lastPage := n - n % items;
    buttons := [];
    var i := 0;
    while i < n
      invariant 0 <= i <= n && |buttons| == counter == (i + items - 1) / items
      invariant forall b :: 0 <= b < counter ==> buttons[b] == Button(TargetOf(n, items, b + 1), b + 1)
    {
      CountStep(i, items);
      if i % items == 0 {
        counter := counter + 1;
        ButtonTarget(n, items, i);
        buttons := buttons + [Button(if lastPage == i then n - items else i, counter)];
      }
      i := i + 1;
    }
  }

  lemma CountStep(i: nat, items: nat)
    requires 1 <= items
    ensures (i + 1 + items - 1) / items == (i + items - 1) / items + if i % items == 0 then 1 else 0
    ensures i % items == 0 ==> (i + items - 1) / items * items == i
  {
    var q, r := DivParts(i, items);
    assert (q + 1) * items == q * items + items;
    if r == 0 {
      DivUnique(i + items - 1, items, q, items - 1);
      DivUnique(i + items, items, q + 1, 0);
    } else {
      DivUnique(i + items - 1, items, q + 1, r - 1);
      DivUnique(i + items, items, q + 1, r);
    }
  }

  lemma NextMultiple(a: nat, b: nat, k: nat)
    requires a < b
    ensures a * k + k <= b * k
  {
    NotSmall(b - a, k);
    assert (b - a) * k == b * k - a * k;
  }

  lemma ButtonTarget(n: nat, items: nat, i: nat)
    requires 1 <= items <= n && i < n && i % items == 0
    ensures (if n - n % items == i then n - items else i) == Min(i, n - items)
  {
    var q, r := DivParts(i, items);
    var q', r' := DivParts(n, items);
    if q < q' {
      Product(q + 1, q', items);
      assert (q + 1) * items == q * items + items;
      assert q * items + items <= q' * items;
    } else if q > q' {
      NextMultiple(q', q, items);
    }
  }
}
